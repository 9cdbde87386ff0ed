/** Attribution of changed leaves: logical paths sorted as text are zipped with tree
    leaves in depth-first key order. */
module OrderAlignment {
  import opened Basics
  import opened Ordering
  import opened Trees
  import opened Layout

  /** '.'.join(keypath) */
  function Join(p: Path): Text
    requires p != []
  {
    if |p| == 1 then p[0] else p[0] + [DOT] + Join(p[1..])
  }

  ghost predicate AboveDot(k: Text) { forall b | b in k :: b > DOT }

  /** Each keypath is its logical path split on '.', over nonempty keys from the alphabet. */
  ghost predicate SplitOver(es: seq<Entry>, alphabet: set<Byte>) {
    forall e | e in es :: e.keypath != [] && e.logical == Join(e.keypath) && PathOver(e.keypath, alphabet)
  }

  ghost predicate PathOver(p: Path, alphabet: set<Byte>) {
    forall k | k in p :: k != [] && forall b | b in k :: b in alphabet
  }

  /** What may follow a key inside a joined path. */
  ghost predicate Tail(s: Text) { s == [] || s[0] == DOT }

  lemma {:induction false} KeyDecides(a: Text, b: Text, s: Text, t: Text)
    requires TextLt(a, b) && AboveDot(a) && AboveDot(b) && Tail(s) && Tail(t)
    ensures TextLt(a + s, b + t)
  {
    if a == [] {
      assert a + s == s && (b + t)[0] == b[0];
      assert b[0] in b;
    } else {
      assert (a + s)[0] == a[0] && (b + t)[0] == b[0];
      if a[0] == b[0] {
        assert forall x | x in a[1..] :: x in a;
        assert forall x | x in b[1..] :: x in b;
        assert (a + s)[1..] == a[1..] + s && (b + t)[1..] == b[1..] + t;
        KeyDecides(a[1..], b[1..], s, t);
      }
    }
  }

  /** Joining is monotone when every key byte is above the separator. */
  lemma {:induction false} JoinMonotone(p: Path, q: Path)
    requires p != [] && q != [] && PathLt(p, q)
    requires (forall k | k in p :: AboveDot(k)) && (forall k | k in q :: AboveDot(k))
    ensures TextLt(Join(p), Join(q))
    decreases |p|
  {
    JoinShape(p);
    JoinShape(q);
    assert p[0] in p && q[0] in q;
    if TextLt(p[0], q[0]) {
      KeyDecides(p[0], q[0], Others(p), Others(q));
    } else {
      assert p[0] == q[0] && PathLt(p[1..], q[1..]);
      if |p| > 1 { JoinMonotone(p[1..], q[1..]); }
      SameFirst(p, q);
    }
  }

  /** What follows the first key. */
  function Others(p: Path): (s: Text)
    requires p != []
    ensures Tail(s)
  {
    if |p| == 1 then [] else [DOT] + Join(p[1..])
  }

  lemma JoinShape(p: Path)
    requires p != []
    ensures Join(p) == p[0] + Others(p)
  {
    if |p| == 1 {
      assert p[0] + [] == p[0];
    } else {
      assert p[0] + [DOT] + Join(p[1..]) == p[0] + ([DOT] + Join(p[1..]));
    }
  }

  lemma SameFirst(p: Path, q: Path)
    requires p != [] && |q| > 1 && p[0] == q[0]
    requires |p| > 1 ==> TextLt(Join(p[1..]), Join(q[1..]))
    ensures TextLt(Join(p), Join(q))
  {
    TextOrder();
    JoinShape(p);
    JoinShape(q);
    LexPrefix(ByteLt, p[0], Others(p), Others(q));
    if |p| > 1 { LexPrefix(ByteLt, [DOT], Join(p[1..]), Join(q[1..])); }
  }

  lemma JoinReflects(p: Path, q: Path)
    requires p != [] && q != [] && p != q && TextLt(Join(p), Join(q))
    requires (forall k | k in p :: AboveDot(k)) && (forall k | k in q :: AboveDot(k))
    ensures PathLt(p, q)
  {
    PathOrder();
    TextOrder();
    if PathLt(q, p) { JoinMonotone(q, p); }
  }

  ghost predicate AllAboveDot(alphabet: set<Byte>) { forall b | b in alphabet :: b > DOT }

  lemma KeypathsAscend(es: seq<Entry>, alphabet: set<Byte>)
    requires WellFormed(es) && SplitOver(es, alphabet) && AllAboveDot(alphabet)
    ensures StrictlySorted(PathLt, Keypaths(es))
  {
    forall i, j | 0 <= i < j < |es| ensures PathLt(Keypaths(es)[i], Keypaths(es)[j]) {
      assert es[i] in es && es[j] in es;
      assert TextLt(Logicals(es)[i], Logicals(es)[j]);
      assert Keypaths(es)[i] != Keypaths(es)[j];
      JoinReflects(es[i].keypath, es[j].keypath);
    }
  }

  /** The paths of any tree over these leaves, depth first, are the leaves in ascending order. */
  lemma WalkAscends<V(!new)>(es: seq<Entry>, t: Tree<V>)
    requires LeavesAre(t, Keypaths(es))
    ensures TotalOrder(PathLt) && Paths(Flat(t, [])) == Ascending(PathLt, Elems(Keypaths(es)))
  {
    PathOrder();
    FlatSorted(t, []);
    FlatLists(t);
    var flat := Flat(t, []);
    ListedPaths(flat, t);
    assert Elems(Keypaths(es)) == Elems(Paths(flat));
    AscendingUnique(PathLt, Paths(flat));
  }

  /** A layout whose keypaths ascend lists them in the order a depth-first walk with sorted
      keys meets the leaves. */
  lemma AscendingAligns<V(!new)>(es: seq<Entry>, t: Tree<V>)
    requires StrictlySorted(PathLt, Keypaths(es)) && LeavesAre(t, Keypaths(es))
    ensures Keypaths(es) == Paths(Flat(t, []))
  {
    WalkAscends(es, t);
    AscendingUnique(PathLt, Keypaths(es));
  }

  /** Sorting entries by logical path does so when every key byte is above the separator. */
  lemma AlignedWithTree<V(!new)>(es: seq<Entry>, alphabet: set<Byte>, t: Tree<V>)
    requires WellFormed(es) && SplitOver(es, alphabet) && AllAboveDot(alphabet)
    requires LeavesAre(t, Keypaths(es))
    ensures Keypaths(es) == Paths(Flat(t, []))
  {
    KeypathsAscend(es, alphabet);
    AscendingAligns(es, t);
  }

  // ---- the zip in run_corridor_pass_v1 ----

  /** zip(paths, leaves, strict=True) filtered by the flag; None when the lengths differ. */
  ghost function Flagged(paths: seq<Text>, flags: seq<bool>): Option<seq<Text>> {
    if |paths| != |flags| then None else Some(Keep(paths, flags))
  }

  function Keep(paths: seq<Text>, flags: seq<bool>): seq<Text>
    requires |paths| == |flags|
  {
    if paths == [] then []
    else (if flags[0] then [paths[0]] else []) + Keep(paths[1..], flags[1..])
  }

  function FlagOf(): ((Path, bool)) -> bool { (e: (Path, bool)) => e.1 }

  ghost function ChangedPaths(es: seq<Entry>, changed: Tree<bool>): Option<seq<Text>> {
    Flagged(Logicals(es), Map(FlagOf(), Flat(changed, [])))
  }

  /** The parameters whose own leaf in the tree is flagged, in layout order. */
  ghost function TrulyChanged(es: seq<Entry>, changed: Tree<bool>): seq<Text> {
    if es == [] then []
    else (if LeafAt(changed, es[0].keypath) == Some(true) then [es[0].logical] else []) + TrulyChanged(es[1..], changed)
  }

  /** Every changed flag is attributed to the parameter it belongs to. */
  ghost predicate AttributedRight(es: seq<Entry>, changed: Tree<bool>) {
    ChangedPaths(es, changed) == Some(TrulyChanged(es, changed))
  }

  lemma AscendingAttributes(es: seq<Entry>, changed: Tree<bool>)
    requires StrictlySorted(PathLt, Keypaths(es)) && LeavesAre(changed, Keypaths(es))
    ensures AttributedRight(es, changed)
  {
    AscendingAligns(es, changed);
    var flat := Flat(changed, []);
    var flags := Map(FlagOf(), flat);
    assert |Keypaths(es)| == |Paths(flat)|;
    FlatLists(changed);
    forall i | 0 <= i < |es| ensures LeafAt(changed, es[i].keypath) == Some(flags[i]) {
      PathsOfMember(flat, i);
      assert Keypaths(es)[i] == Paths(flat)[i];
    }
    KeepIsTruly(es, flags, changed);
  }

  lemma AttributionCorrect(es: seq<Entry>, alphabet: set<Byte>, changed: Tree<bool>)
    requires WellFormed(es) && SplitOver(es, alphabet) && AllAboveDot(alphabet)
    requires LeavesAre(changed, Keypaths(es))
    ensures AttributedRight(es, changed)
  {
    KeypathsAscend(es, alphabet);
    AscendingAttributes(es, changed);
  }

  lemma {:induction false} KeepIsTruly(es: seq<Entry>, flags: seq<bool>, changed: Tree<bool>)
    requires |es| == |flags| && forall i | 0 <= i < |es| :: LeafAt(changed, es[i].keypath) == Some(flags[i])
    ensures Keep(Logicals(es), flags) == TrulyChanged(es, changed)
  {
    if es != [] {
      assert Logicals(es)[1..] == Logicals(es[1..]);
      forall i | 0 <= i < |es[1..]| ensures LeafAt(changed, es[1..][i].keypath) == Some(flags[1..][i]) {
        assert es[1..][i] == es[i + 1];
      }
      KeepIsTruly(es[1..], flags[1..], changed);
    }
  }

  // ---- exactly when a given layout attributes every change correctly ----

  lemma {:induction false} KeepNone(paths: seq<Text>, flags: seq<bool>)
    requires |paths| == |flags| && forall k | 0 <= k < |flags| :: !flags[k]
    ensures Keep(paths, flags) == []
  {
    if paths != [] { KeepNone(paths[1..], flags[1..]); }
  }

  lemma {:induction false} KeepOne(paths: seq<Text>, flags: seq<bool>, j: nat)
    requires |paths| == |flags| && j < |flags| && forall k | 0 <= k < |flags| :: flags[k] <==> k == j
    ensures Keep(paths, flags) == [paths[j]]
  {
    if j == 0 { KeepNone(paths[1..], flags[1..]); } else { KeepOne(paths[1..], flags[1..], j - 1); }
  }

  /** The tree of a layout in which only entry i changed. */
  lemma OneChanged(es: seq<Entry>, i: nat) returns (changed: Tree<bool>)
    requires WellFormed(es) && PrefixFree(Keypaths(es)) && i < |es|
    ensures LeavesAre(changed, Keypaths(es))
    ensures forall p :: LeafAt(changed, p) == Some(true) <==> p == es[i].keypath
  {
    var picked := Picks({es[i].logical});
    MappingTreeLeaves(es, picked);
    changed := MappingTree(es, picked).value;
    forall p
      ensures IsLeafPath(changed, p) <==> p in Keypaths(es)
      ensures LeafAt(changed, p) == Some(true) <==> p == es[i].keypath
    {
      PickedAt(es, i, p);
    }
  }

  lemma PickedAt(es: seq<Entry>, i: nat, p: Path)
    requires WellFormed(es) && i < |es|
    ensures EntryAt(es, p).Some? <==> p in Keypaths(es)
    ensures Made(Picks({es[i].logical}), EntryAt(es, p)) == Some(true) <==> p == es[i].keypath
  {
    TextOrder();
    EntryAtFinds(es, p);
    EntryAtFinds(es, es[i].keypath);
    StrictlySortedDistinct(TextLt, Logicals(es));
    assert Keypaths(es)[i] == es[i].keypath && Logicals(es)[i] == es[i].logical;
    if EntryAt(es, p).Some? {
      var k :| 0 <= k < |es| && es[k] == EntryAt(es, p).value;
      assert Keypaths(es)[k] == es[k].keypath && Logicals(es)[k] == es[k].logical;
      DifferentEntries(es, i, k);
    }
  }

  lemma DifferentEntries(es: seq<Entry>, i: nat, k: nat)
    requires Distinct(Logicals(es)) && Distinct(Keypaths(es)) && i < |es| && k < |es|
    ensures (es[i].logical == es[k].logical <==> i == k) && (es[i].keypath == es[k].keypath <==> i == k)
  {
    assert Logicals(es)[i] == es[i].logical && Logicals(es)[k] == es[k].logical;
    assert Keypaths(es)[i] == es[i].keypath && Keypaths(es)[k] == es[k].keypath;
  }

  /** If the one change is named rightly, its entry stands where the walk meets its leaf. */
  lemma OneNamedRight(es: seq<Entry>, i: nat, changed: Tree<bool>)
    requires WellFormed(es) && i < |es| && LeavesAre(changed, Keypaths(es)) && AttributedRight(es, changed)
    requires forall p :: LeafAt(changed, p) == Some(true) <==> p == es[i].keypath
    ensures |Flat(changed, [])| == |es| && Paths(Flat(changed, []))[i] == es[i].keypath
  {
    var flat := Flat(changed, []);
    OwnReport(es, i, changed);
    var j := FlaggedPlace(es[i].keypath, changed);
    KeepOne(Logicals(es), Map(FlagOf(), flat), j);
    SameName(es, i, j);
  }

  /** What should be reported when only entry i changed. */
  lemma OwnReport(es: seq<Entry>, i: nat, changed: Tree<bool>)
    requires WellFormed(es) && i < |es| && LeavesAre(changed, Keypaths(es))
    requires forall p :: LeafAt(changed, p) == Some(true) <==> p == es[i].keypath
    ensures TrulyChanged(es, changed) == [Logicals(es)[i]]
  {
    var own := seq(|es|, k => k == i);
    forall k | 0 <= k < |es| ensures LeafAt(changed, es[k].keypath) == Some(own[k]) { OwnFlag(es, i, k, changed); }
    KeepIsTruly(es, own, changed);
    KeepOne(Logicals(es), own, i);
  }

  lemma OwnFlag(es: seq<Entry>, i: nat, k: nat, changed: Tree<bool>)
    requires WellFormed(es) && i < |es| && k < |es| && LeavesAre(changed, Keypaths(es))
    requires forall p :: LeafAt(changed, p) == Some(true) <==> p == es[i].keypath
    ensures LeafAt(changed, es[k].keypath) == Some(k == i)
  {
    var p := es[k].keypath;
    assert Keypaths(es)[k] == p && Keypaths(es)[i] == es[i].keypath;
    assert IsLeafPath(changed, p);
    assert k < i ==> Keypaths(es)[k] != Keypaths(es)[i];
    assert i < k ==> Keypaths(es)[i] != Keypaths(es)[k];
    var v := LeafAt(changed, p).value;
    assert LeafAt(changed, p) == Some(v) && (v <==> p == es[i].keypath);
  }

  lemma SameName(es: seq<Entry>, i: nat, j: nat)
    requires WellFormed(es) && i < |es| && j < |es|
    ensures Logicals(es)[i] == Logicals(es)[j] ==> i == j
  {
    TextOrder();
    StrictlySortedDistinct(TextLt, Logicals(es));
    DifferentEntries(es, i, j);
  }

  lemma FlaggedPlace(p: Path, changed: Tree<bool>) returns (j: nat)
    requires forall q :: LeafAt(changed, q) == Some(true) <==> q == p
    ensures var flat := Flat(changed, []);
            j < |flat| && Paths(flat)[j] == p && forall k | 0 <= k < |flat| :: Map(FlagOf(), flat)[k] <==> k == j
  {
    var flat := Flat(changed, []);
    FlatLists(changed);
    assert (p, true) in flat;
    j :| 0 <= j < |flat| && flat[j] == (p, true);
    forall k | 0 <= k < |flat| ensures Map(FlagOf(), flat)[k] <==> k == j {
      PathsOfMember(flat, k);
      PathsOfMember(flat, j);
      assert LeafAt(changed, flat[k].0) == Some(flat[k].1);
      assert k < j ==> Paths(flat)[k] != Paths(flat)[j];
      assert j < k ==> Paths(flat)[j] != Paths(flat)[k];
    }
  }

  /** For each layout: every change is attributed to its own parameter if and only if the
      keypaths, in the order of their logical paths, ascend. */
  lemma AttributionIffAscending(es: seq<Entry>)
    requires WellFormed(es) && PrefixFree(Keypaths(es))
    ensures (forall changed | LeavesAre(changed, Keypaths(es)) :: AttributedRight(es, changed)) <==>
            StrictlySorted(PathLt, Keypaths(es))
  {
    if StrictlySorted(PathLt, Keypaths(es)) {
      forall changed | LeavesAre(changed, Keypaths(es)) ensures AttributedRight(es, changed) { AscendingAttributes(es, changed); }
    }
    if forall changed | LeavesAre(changed, Keypaths(es)) :: AttributedRight(es, changed) {
      PathOrder();
      var walk := Ascending(PathLt, Elems(Keypaths(es)));
      forall i | 0 <= i < |es| ensures i < |walk| == |es| && walk[i] == Keypaths(es)[i] {
        var changed := OneChanged(es, i);
        WalkAscends(es, changed);
        OneNamedRight(es, i, changed);
      }
      assert Keypaths(es) == walk;
    }
  }

  // ---- exactly which alphabets make every layout ascend ----

  /** Every layout split over the alphabet lists its keypaths in tree order. */
  ghost predicate AlignsOver(alphabet: set<Byte>) {
    forall es :: WellFormed(es) && SplitOver(es, alphabet) ==> StrictlySorted(PathLt, Keypaths(es))
  }

  /** For two one-letter keys below the separator: `cc` sorts before `c.c` as text, after it as a keypath. */
  function Misordered(c: Byte, id: ArrayId): seq<Entry> {
    [Entry([c, c], [[c, c]], id, true, None), Entry([c, DOT, c], [[c], [c]], id, true, None)]
  }

  lemma MisorderedLayout(c: Byte, id: ArrayId)
    requires c < DOT
    ensures WellFormed(Misordered(c, id)) && SplitOver(Misordered(c, id), {c})
    ensures PrefixFree(Keypaths(Misordered(c, id)))
    ensures PathLt(Misordered(c, id)[1].keypath, Misordered(c, id)[0].keypath)
  {
    var es := Misordered(c, id);
    assert Keypaths(es) == [[[c, c]], [[c], [c]]] && Logicals(es) == [[c, c], [c, DOT, c]];
    assert TextLt([c, c], [c, DOT, c]) by { assert [c, c][1..] == [c] && [c, DOT, c][1..] == [DOT, c]; }
    assert TextLt([c], [c, c]) by { assert [c][1..] == [] && [c, c][1..] == [c]; }
    assert Join([[c], [c]]) == [c] + [DOT] + Join([[c]]) by { assert [[c], [c]][1..] == [[c]]; }
    assert Join([[c], [c]]) == [c, DOT, c];
    assert PathOver([[c, c]], {c}) && PathOver([[c], [c]], {c});
  }

  /** Over an alphabet without the separator, alignment holds for all layouts exactly when
      every letter is above the separator. */
  lemma AlignmentExact(alphabet: set<Byte>)
    requires DOT !in alphabet
    ensures AlignsOver(alphabet) <==> AllAboveDot(alphabet)
  {
    if AllAboveDot(alphabet) {
      forall es | WellFormed(es) && SplitOver(es, alphabet) ensures StrictlySorted(PathLt, Keypaths(es)) {
        KeypathsAscend(es, alphabet);
      }
    } else {
      var c :| c in alphabet && c <= DOT;
      var es := Misordered(c, ArrayId([], []));
      MisorderedLayout(c, ArrayId([], []));
      assert SplitOver(es, alphabet) by {
        forall e | e in es ensures PathOver(e.keypath, alphabet) { assert PathOver(e.keypath, {c}); }
      }
      PathOrder();
      assert Keypaths(es)[0] == es[0].keypath && Keypaths(es)[1] == es[1].keypath;
    }
  }

  lemma OneLeaf<V>(k: Text, v: V, q: Path)
    ensures LeafAt(Branch(map[k := Leaf(v)]), q) == if q == [k] then Some(v) else None
  {
    if q != [] { assert q == [q[0]] + q[1..]; }
  }

  /** A tree over the keypaths of Misordered in which only `c.c` is flagged. */
  function FlagSecond(c: Byte): Tree<bool> {
    Branch(map[[c] := Branch(map[[c] := Leaf(true)]), [c, c] := Leaf(false)])
  }

  lemma FlagSecondLeaves(c: Byte)
    ensures var t, p, q := FlagSecond(c), [[c], [c]], [[c, c]];
            NoEmpty(t) && forall r :: LeafAt(t, r) == if r == p then Some(true) else if r == q then Some(false) else None
  {
    var one, two: Text := [c], [c, c];
    var inner := Branch(map[one := Leaf(true)]);
    var t, p, q := FlagSecond(c), [one, one], [two];
    assert one in t.kids && one in inner.kids;
    forall r ensures LeafAt(t, r) == if r == p then Some(true) else if r == q then Some(false) else None {
      if r != [] && r[0] == one {
        assert r == [one] + r[1..];
        OneLeaf(one, true, r[1..]);
        assert t.kids[one] == inner;
      } else if r != [] {
        assert r == [r[0]] + r[1..];
      }
    }
  }

  lemma FlagSecondFlat(c: Byte)
    requires c < DOT
    ensures Flat(FlagSecond(c), []) == [([[c], [c]], true), ([[c, c]], false)]
  {
    var p: Path, q: Path := [[c], [c]], [[c, c]];
    var want: Entries<bool> := [(p, true), (q, false)];
    FlagSecondLeaves(c);
    MisorderedLayout(c, ArrayId([], []));
    assert Paths(want) == [p, q];
    assert Lists(want, FlagSecond(c));
    FlatUnique(FlagSecond(c), want);
  }

  /** Then the wrong parameter is reported: only `c.c` changed, and `cc` is named. */
  lemma Misattributed(c: Byte, id: ArrayId)
    requires c < DOT
    ensures LeavesAre(FlagSecond(c), Keypaths(Misordered(c, id)))
    ensures ChangedPaths(Misordered(c, id), FlagSecond(c)) == Some([[c, c]])
    ensures TrulyChanged(Misordered(c, id), FlagSecond(c)) == [[c, DOT, c]]
  {
    MisorderedNames(c, id);
    LeavesOfMisordered(c, id);
    FlagSecondFlat(c);
    assert Map(FlagOf(), Flat(FlagSecond(c), [])) == [true, false];
    KeepOfTwo([c, c], [c, DOT, c]);
    TrulySecond(c, id);
  }

  lemma MisorderedNames(c: Byte, id: ArrayId)
    ensures Keypaths(Misordered(c, id)) == [[[c, c]], [[c], [c]]] && Logicals(Misordered(c, id)) == [[c, c], [c, DOT, c]]
  {
  }

  lemma LeavesOfMisordered(c: Byte, id: ArrayId)
    ensures LeavesAre(FlagSecond(c), Keypaths(Misordered(c, id)))
  {
    MisorderedNames(c, id);
    FlagSecondLeaves(c);
  }

  lemma TrulySecond(c: Byte, id: ArrayId)
    ensures TrulyChanged(Misordered(c, id), FlagSecond(c)) == [[c, DOT, c]]
  {
    var es, changed := Misordered(c, id), FlagSecond(c);
    FlagSecondLeaves(c);
    assert es == [es[0], es[1]];
    assert LeafAt(changed, es[0].keypath) == Some(false) && LeafAt(changed, es[1].keypath) == Some(true);
    TrulyOfTwo(es[0], es[1], changed);
  }

  lemma KeepOfTwo(a: Text, b: Text)
    ensures Keep([a, b], [true, false]) == [a]
  {
    assert [a, b][1..] == [b] && [true, false][1..] == [false] && [b][1..] == [];
    assert Keep([b], [false]) == [] + Keep([], []) by { assert [false][1..] == []; }
  }

  lemma TrulyOfTwo(a: Entry, b: Entry, changed: Tree<bool>)
    ensures TrulyChanged([a, b], changed) ==
            (if LeafAt(changed, a.keypath) == Some(true) then [a.logical] else []) +
            (if LeafAt(changed, b.keypath) == Some(true) then [b.logical] else [])
  {
    assert [a, b][1..] == [b] && [b][1..] == [];
    var last := if LeafAt(changed, b.keypath) == Some(true) then [b.logical] else [];
    assert TrulyChanged([], changed) == [];
    assert TrulyChanged([b], changed) == last + TrulyChanged([b][1..], changed) == last;
  }
}
