/** Parameter tree layouts: a flat list of leaf identities against nested mappings. */
module Layout {
  import opened Basics
  import opened Ordering
  import opened Trees
  import opened NestedDicts

  /** The separator of logical paths, '.' */
  const DOT: Byte := 46

  /** The array identity of a materialised leaf. */
  datatype ArrayId = ArrayId(shape: seq<nat>, dtype: Text)

  datatype Entry = Entry(logical: Text, keypath: Path, arrayId: ArrayId, trainable: bool, hfKey: Option<Text>)

  datatype LayoutError = NoEntries | NotBijective | DuplicateHfKeys
  datatype MaskError = UnknownSelection | NotTrainable | TreeMismatch

  function Keypaths(es: seq<Entry>): seq<Path> { Map((e: Entry) => e.keypath, es) }

  function Logicals(es: seq<Entry>): seq<Text> { Map((e: Entry) => e.logical, es) }

  predicate ByLogical(a: Entry, b: Entry) { TextLt(a.logical, b.logical) }

  function HasHfKey(): Entry -> bool { (e: Entry) => e.hfKey.Some? }

  function HfKeyOf(): Entry -> Text { (e: Entry) => e.hfKey.GetOr([]) }

  /** The distribution keys of the entries that have one. */
  function HfKeys(es: seq<Entry>): seq<Text> { Map(HfKeyOf(), Filter(HasHfKey(), es)) }

  /** The layout constructor: sorts by logical path, then insists on bijective identities. */
  function Make(entries: seq<Entry>): Result<seq<Entry>, LayoutError> {
    if entries == [] then Err(NoEntries) else Seal(Sort(ByLogical, entries))
  }

  /** The checks on the sorted entries. */
  function Seal(es: seq<Entry>): Result<seq<Entry>, LayoutError> {
    if !Distinct(Logicals(es)) || !Distinct(Keypaths(es)) then Err(NotBijective)
    else if !Distinct(HfKeys(es)) then Err(DuplicateHfKeys)
    else Ok(es)
  }

  lemma PermutedDistinct<T>(f: Entry -> T, a: seq<Entry>, b: seq<Entry>)
    requires multiset(a) == multiset(b)
    ensures Distinct(Map(f, a)) <==> Distinct(Map(f, b))
  {
    MapPermutes(f, a, b);
    if Distinct(Map(f, a)) { DistinctPermutes(Map(f, a), Map(f, b)); }
    if Distinct(Map(f, b)) { DistinctPermutes(Map(f, b), Map(f, a)); }
  }

  lemma {:induction false} HfKeysDiffer(es: seq<Entry>)
    ensures Distinct(HfKeys(es)) <==>
            forall i, j | 0 <= i < j < |es| && es[i].hfKey.Some? && es[j].hfKey.Some? :: es[i].hfKey != es[j].hfKey
  {
    if es != [] {
      var front, last := es[..|es| - 1], es[|es| - 1];
      assert es == front + [last];
      HfKeysDiffer(front);
      FilterSnoc(HasHfKey(), front, last);
      HfKeysSnoc(front, last);
    }
  }

  lemma HfKeysSnoc(front: seq<Entry>, last: Entry)
    requires Filter(HasHfKey(), front + [last]) == Filter(HasHfKey(), front) + if last.hfKey.Some? then [last] else []
    ensures Distinct(HfKeys(front + [last])) <==>
            Distinct(HfKeys(front)) && (last.hfKey.Some? ==> forall i | 0 <= i < |front| :: front[i].hfKey != last.hfKey)
  {
    if last.hfKey.Some? {
      var key := last.hfKey.value;
      MapSnoc(HfKeyOf(), Filter(HasHfKey(), front), last);
      assert HfKeys(front + [last]) == HfKeys(front) + [key];
      DistinctAppend(HfKeys(front), key);
      KeyAmong(front, key);
      KeyDiffers(front, key);
    } else {
      assert Filter(HasHfKey(), front) + [] == Filter(HasHfKey(), front);
    }
  }

  lemma KeyDiffers(front: seq<Entry>, key: Text)
    ensures (exists i :: 0 <= i < |front| && front[i].hfKey == Some(key)) <==> !forall i | 0 <= i < |front| :: front[i].hfKey != Some(key)
  {
  }

  lemma KeyAmong(es: seq<Entry>, key: Text)
    ensures key in HfKeys(es) <==> exists i :: 0 <= i < |es| && es[i].hfKey == Some(key)
  {
    var kept := Filter(HasHfKey(), es);
    if key in HfKeys(es) {
      var k :| 0 <= k < |kept| && HfKeys(es)[k] == key;
      assert kept[k] in es;
      var i :| 0 <= i < |es| && es[i] == kept[k];
    }
    if i :| 0 <= i < |es| && es[i].hfKey == Some(key) {
      assert es[i] in kept;
      var k :| 0 <= k < |kept| && kept[k] == es[i];
      assert HfKeys(es)[k] == key;
    }
  }

  lemma DistinctAppend(keys: seq<Text>, key: Text)
    ensures Distinct(keys + [key]) <==> Distinct(keys) && key !in keys
  {
    var all := keys + [key];
    if Distinct(all) {
      forall i, j | 0 <= i < j < |keys| ensures keys[i] != keys[j] { assert all[i] != all[j]; }
      forall i | 0 <= i < |keys| ensures keys[i] != key { assert all[i] != all[|keys|]; }
    }
  }

  lemma {:induction false} FilterCounts(p: Entry -> bool, s: seq<Entry>, x: Entry)
    ensures multiset(Filter(p, s))[x] == if p(x) then multiset(s)[x] else 0
  {
    if s != [] {
      var front, last := s[..|s| - 1], s[|s| - 1];
      assert s == front + [last];
      FilterCounts(p, front, x);
      FilterSnoc(p, front, last);
    }
  }

  lemma FilterPermutes(p: Entry -> bool, a: seq<Entry>, b: seq<Entry>)
    requires multiset(a) == multiset(b)
    ensures multiset(Filter(p, a)) == multiset(Filter(p, b))
  {
    forall x ensures multiset(Filter(p, a))[x] == multiset(Filter(p, b))[x] {
      FilterCounts(p, a, x);
      FilterCounts(p, b, x);
    }
  }

  /** A layout is made from entries of which no two share a logical path, a keypath or a
      distribution key, in whatever order they are given. */
  lemma MakeExactly(entries: seq<Entry>)
    ensures Make(entries).Ok? <==>
            && entries != []
            && (forall i, j | 0 <= i < j < |entries| :: entries[i].logical != entries[j].logical && entries[i].keypath != entries[j].keypath)
            && (forall i, j | 0 <= i < j < |entries| && entries[i].hfKey.Some? && entries[j].hfKey.Some? ::
                  entries[i].hfKey != entries[j].hfKey)
  {
    var es := Sort(ByLogical, entries);
    PathsPermute(es, entries);
    FilterPermutes(HasHfKey(), es, entries);
    PermutedDistinct(HfKeyOf(), Filter(HasHfKey(), es), Filter(HasHfKey(), entries));
    HfKeysDiffer(entries);
    PathsDiffer(entries);
    assert |multiset(es)| == |es| && |multiset(entries)| == |entries|;
  }

  lemma PathsPermute(a: seq<Entry>, b: seq<Entry>)
    requires multiset(a) == multiset(b)
    ensures Distinct(Logicals(a)) <==> Distinct(Logicals(b))
    ensures Distinct(Keypaths(a)) <==> Distinct(Keypaths(b))
  {
    var logical, keypath := (e: Entry) => e.logical, (e: Entry) => e.keypath;
    PermutedDistinct(logical, a, b);
    PermutedDistinct(keypath, a, b);
    assert Map(logical, a) == Logicals(a) && Map(logical, b) == Logicals(b);
    assert Map(keypath, a) == Keypaths(a) && Map(keypath, b) == Keypaths(b);
  }

  lemma PathsDiffer(es: seq<Entry>)
    ensures Distinct(Logicals(es)) <==> forall i, j | 0 <= i < j < |es| :: es[i].logical != es[j].logical
    ensures Distinct(Keypaths(es)) <==> forall i, j | 0 <= i < j < |es| :: es[i].keypath != es[j].keypath
  {
    assert forall i | 0 <= i < |es| :: Logicals(es)[i] == es[i].logical && Keypaths(es)[i] == es[i].keypath;
  }

  lemma MadeIsSorted(entries: seq<Entry>)
    requires Make(entries).Ok?
    ensures entries != [] && Make(entries).value == Sort(ByLogical, entries)
    ensures Distinct(Logicals(Sort(ByLogical, entries))) && Distinct(Keypaths(Sort(ByLogical, entries)))
  {
  }

  /** What an accepted layout is. Nothing here makes the keypaths prefix-free. */
  ghost predicate WellFormed(es: seq<Entry>) {
    && es != []
    && StrictlySorted(TextLt, Logicals(es))
    && Distinct(Keypaths(es))
    && forall e | e in es :: e.keypath != []
  }

  lemma MakeWellFormed(entries: seq<Entry>)
    requires Make(entries).Ok? && forall e | e in entries :: e.keypath != []
    ensures WellFormed(Make(entries).value) && multiset(Make(entries).value) == multiset(entries)
  {
    var es := Sort(ByLogical, entries);
    MadeIsSorted(entries);
    LogicalsDistinctConnected(entries);
    SortSorted(ByLogical, entries);
    LogicalsAscend(es);
    forall e | e in es ensures e in entries { assert e in multiset(es); }
    assert |multiset(es)| == |es| && |multiset(entries)| == |entries|;
  }

  lemma LogicalsAscend(es: seq<Entry>)
    requires Sorted(ByLogical, es) && Distinct(Logicals(es))
    ensures StrictlySorted(TextLt, Logicals(es))
  {
    TextOrder();
    var ls := Logicals(es);
    forall i, j | 0 <= i < j < |ls| ensures TextLt(ls[i], ls[j]) {
      assert ls[i] != ls[j] && !ByLogical(es[j], es[i]);
    }
  }

  lemma LogicalsDistinctConnected(entries: seq<Entry>)
    requires Make(entries).Ok?
    ensures StrictOrder(ByLogical) && ConnectedOn(ByLogical, entries)
  {
    var es := Sort(ByLogical, entries);
    MadeIsSorted(entries);
    DistinctLogicalsConnect(es);
    ConnectedAcross(ByLogical, es, entries);
  }

  lemma DistinctLogicalsConnect(es: seq<Entry>)
    requires Distinct(Logicals(es))
    ensures StrictOrder(ByLogical) && ConnectedOn(ByLogical, es)
  {
    TextOrder();
    forall i, j | 0 <= i < |es| && 0 <= j < |es| && es[i] != es[j]
      ensures ByLogical(es[i], es[j]) || ByLogical(es[j], es[i])
    {
      var ls := Logicals(es);
      assert ls[i] == es[i].logical && ls[j] == es[j].logical;
      assert ls[i] != ls[j];
    }
  }

  /** The order in which the entries are given does not matter. */
  lemma MakeForgetsOrder(a: seq<Entry>, b: seq<Entry>)
    requires multiset(a) == multiset(b)
    ensures Make(a).Ok? || Make(b).Ok? ==> Make(a) == Make(b)
  {
    assert |multiset(a)| == |a| && |multiset(b)| == |b|;
    if Make(a).Ok? {
      MadeAlike(a, b);
    } else if Make(b).Ok? {
      MadeAlike(b, a);
    }
  }

  lemma MadeAlike(a: seq<Entry>, b: seq<Entry>)
    requires multiset(a) == multiset(b) && |a| == |b| && Make(a).Ok?
    ensures Make(a) == Make(b)
  {
    LogicalsDistinctConnected(a);
    SortForgetsOrder(ByLogical, a, b);
  }

  // ---- update_mask ----

  function EntryAt(es: seq<Entry>, p: Path): Option<Entry> {
    if es == [] then None
    else if es[0].keypath == p then Some(es[0])
    else EntryAt(es[1..], p)
  }

  /** keypath[:len(prefix)] == prefix and len(keypath) > len(prefix) */
  predicate Below(prefix: Path, p: Path) { prefix <= p && |p| > |prefix| }

  predicate ExpectedBranch(es: seq<Entry>, prefix: Path) {
    exists i :: 0 <= i < |es| && Below(prefix, es[i].keypath)
  }

  function NextKeys(es: seq<Entry>, prefix: Path): set<Text> {
    set i | 0 <= i < |es| && Below(prefix, es[i].keypath) :: es[i].keypath[|prefix|]
  }

  /** The recursive `build` of update_mask. */
  function BuildMask<V>(es: seq<Entry>, selected: set<Text>, node: Tree<V>, prefix: Path): Option<Tree<bool>>
    decreases node
  {
    match EntryAt(es, prefix)
    case Some(e) => if node.Branch? then None else Some(Leaf(e.logical in selected))
    case None =>
      if !ExpectedBranch(es, prefix) || node.Leaf? then None
      else if node.kids.Keys != NextKeys(es, prefix) then None
      else if exists k :: k in node.kids && BuildMask(es, selected, node.kids[k], prefix + [k]).None? then None
      else Some(Branch(map k | k in node.kids :: BuildMask(es, selected, node.kids[k], prefix + [k]).value))
  }

  predicate UnknownSelected(es: seq<Entry>, chosen: set<Text>) {
    exists s :: s in chosen && s !in Logicals(es)
  }

  predicate FixedSelected(es: seq<Entry>, chosen: set<Text>) {
    exists e :: e in es && e.logical in chosen && !e.trainable
  }

  function UpdateMask<V>(es: seq<Entry>, parameters: Tree<V>, selected: seq<Text>): Result<Tree<bool>, MaskError> {
    var chosen := Elems(selected);
    if UnknownSelected(es, chosen) then Err(UnknownSelection)
    else if FixedSelected(es, chosen) then Err(NotTrainable)
    else match BuildMask(es, chosen, parameters, [])
      case None => Err(TreeMismatch)
      case Some(mask) => Ok(mask)
  }

  /** The recursive `check` of validate_materialized_parameters. */
  predicate Check(es: seq<Entry>, node: Tree<ArrayId>, prefix: Path)
    decreases node
  {
    match EntryAt(es, prefix)
    case Some(e) => node.Leaf? && node.value == e.arrayId
    case None =>
      node.Branch? && node.kids.Keys == NextKeys(es, prefix) &&
      forall k :: k in node.kids ==> Check(es, node.kids[k], prefix + [k])
  }

  // ---- which trees are accepted ----

  /** A keypath with no other keypath on the way to it. */
  ghost predicate Minimal(es: seq<Entry>, p: Path) {
    p in Keypaths(es) && forall q :: q in Keypaths(es) && q <= p ==> q == p
  }

  ghost predicate ReachedBy(es: seq<Entry>, prefix: Path) {
    forall q :: q in Keypaths(es) && q <= prefix ==> q == prefix
  }

  /** The leaves of node, placed below prefix, are exactly the minimal keypaths there. */
  ghost predicate HoldsMinimal<V>(es: seq<Entry>, node: Tree<V>, prefix: Path) {
    forall q :: IsLeafPath(node, q) <==> Minimal(es, prefix + q)
  }

  lemma {:induction false} EntryAtFinds(es: seq<Entry>, p: Path)
    ensures EntryAt(es, p).Some? <==> p in Keypaths(es)
    ensures EntryAt(es, p).Some? ==> EntryAt(es, p).value in es && EntryAt(es, p).value.keypath == p
  {
    if es != [] {
      assert Keypaths(es) == [es[0].keypath] + Keypaths(es[1..]);
      EntryAtFinds(es[1..], p);
    }
  }

  lemma {:induction false} MinimalExists(es: seq<Entry>, p: Path) returns (m: Path)
    requires p in Keypaths(es)
    ensures m <= p && Minimal(es, m)
    decreases |p|
  {
    if Minimal(es, p) {
      m := p;
    } else {
      var q :| q in Keypaths(es) && q <= p && q != p;
      m := MinimalExists(es, q);
    }
  }

  lemma AcceptLeafNode<V>(es: seq<Entry>, node: Tree<V>, prefix: Path)
    requires ReachedBy(es, prefix) && NoEmpty(node)
    ensures EntryAt(es, prefix).Some? ==> (node.Leaf? <==> HoldsMinimal(es, node, prefix))
    ensures EntryAt(es, prefix).None? && node.Leaf? ==> !HoldsMinimal(es, node, prefix)
  {
    EntryAtFinds(es, prefix);
    assert prefix + [] == prefix;
    assert IsLeafPath(node, []) <==> node.Leaf?;
    if EntryAt(es, prefix).Some? {
      assert Minimal(es, prefix);
      forall q | q != [] ensures !Minimal(es, prefix + q) { assert prefix <= prefix + q; }
    }
  }

  /** Below an expected branch, the keys of a tree holding the minimal keypaths are the next keys. */
  lemma KeysAgree<V>(es: seq<Entry>, node: Tree<V>, prefix: Path)
    requires ReachedBy(es, prefix) && EntryAt(es, prefix).None?
    requires node.Branch? && NoEmpty(node) && HoldsMinimal(es, node, prefix)
    ensures ExpectedBranch(es, prefix) && node.kids.Keys == NextKeys(es, prefix)
  {
    EntryAtFinds(es, prefix);
    forall k | k in node.kids ensures k in NextKeys(es, prefix) {
      var q := HasLeaf(node.kids[k]);
      ChildLeaf(node, k, q);
      var p := prefix + ([k] + q);
      assert Minimal(es, p);
      var i :| 0 <= i < |es| && Keypaths(es)[i] == p;
      assert Below(prefix, es[i].keypath) && es[i].keypath[|prefix|] == k;
    }
    forall k | k in NextKeys(es, prefix) ensures k in node.kids {
      var i :| 0 <= i < |es| && Below(prefix, es[i].keypath) && es[i].keypath[|prefix|] == k;
      var p := es[i].keypath;
      assert Keypaths(es)[i] == p;
      var m := MinimalExists(es, p);
      assert !(m <= prefix);
      assert prefix <= m;
      var q := m[|prefix|..];
      assert m == prefix + q && q[0] == k;
      assert IsLeafPath(node, q);
    }
    var k :| k in node.kids;
    assert k in NextKeys(es, prefix);
  }

  lemma ChildHolds<V>(es: seq<Entry>, node: Tree<V>, prefix: Path, k: Text)
    requires node.Branch? && k in node.kids
    requires forall q :: IsLeafPath(node, [k] + q) <==> Minimal(es, prefix + ([k] + q))
    ensures HoldsMinimal(es, node.kids[k], prefix + [k])
  {
    forall q ensures IsLeafPath(node.kids[k], q) <==> Minimal(es, prefix + [k] + q) {
      ChildLeaf(node, k, q);
      assert prefix + ([k] + q) == prefix + [k] + q;
    }
  }

  /** A tree is accepted exactly when it has no empty mapping and its leaves are the
      minimal keypaths of the layout. This holds for every layout, prefix-free or not. */
  lemma {:induction false} AcceptsMinimal<V>(es: seq<Entry>, selected: set<Text>, node: Tree<V>, prefix: Path)
    requires ReachedBy(es, prefix)
    ensures BuildMask(es, selected, node, prefix).Some? <==> NoEmpty(node) && HoldsMinimal(es, node, prefix)
    decreases node, 1
  {
    EntryAtFinds(es, prefix);
    if node.Leaf? || EntryAt(es, prefix).Some? {
      if NoEmpty(node) { AcceptLeafNode(es, node, prefix); }
    } else {
      forall k | k in node.kids && k in NextKeys(es, prefix) ensures ReachedBy(es, prefix + [k]) { ReachedOn(es, prefix, k); }
      if BuildMask(es, selected, node, prefix).Some? {
        BranchAccepted(es, selected, node, prefix);
      }
      if NoEmpty(node) && HoldsMinimal(es, node, prefix) {
        KeysAgree(es, node, prefix);
        forall k | k in node.kids ensures BuildMask(es, selected, node.kids[k], prefix + [k]).Some? {
          ChildHolds(es, node, prefix, k);
          AcceptsMinimal(es, selected, node.kids[k], prefix + [k]);
        }
      }
    }
  }

  lemma BranchAccepted<V>(es: seq<Entry>, selected: set<Text>, node: Tree<V>, prefix: Path)
    requires ReachedBy(es, prefix) && EntryAt(es, prefix).None? && node.Branch?
    requires BuildMask(es, selected, node, prefix).Some?
    ensures NoEmpty(node) && HoldsMinimal(es, node, prefix)
    decreases node, 0
  {
    EntryAtFinds(es, prefix);
    var i :| 0 <= i < |es| && Below(prefix, es[i].keypath);
    assert es[i].keypath[|prefix|] in NextKeys(es, prefix);
    forall k | k in node.kids ensures NoEmpty(node.kids[k]) && HoldsMinimal(es, node.kids[k], prefix + [k]) {
      ReachedOn(es, prefix, k);
      AcceptsMinimal(es, selected, node.kids[k], prefix + [k]);
    }
    forall q ensures IsLeafPath(node, q) <==> Minimal(es, prefix + q) { BranchLeaf(es, node, prefix, q); }
  }

  /** The leaves below a branch are those of its children. */
  lemma BranchLeaf<V>(es: seq<Entry>, node: Tree<V>, prefix: Path, q: Path)
    requires prefix !in Keypaths(es) && node.Branch? && node.kids.Keys == NextKeys(es, prefix)
    requires q != [] && q[0] in node.kids ==> HoldsMinimal(es, node.kids[q[0]], prefix + [q[0]])
    ensures IsLeafPath(node, q) <==> Minimal(es, prefix + q)
  {
    if q == [] {
      assert prefix + q == prefix;
    } else {
      assert q == [q[0]] + q[1..];
      assert prefix + [q[0]] + q[1..] == prefix + q;
      if Minimal(es, prefix + q) { FirstKeyExpected(es, prefix, q); }
    }
  }

  lemma ReachedOn(es: seq<Entry>, prefix: Path, k: Text)
    requires ReachedBy(es, prefix) && prefix !in Keypaths(es)
    ensures ReachedBy(es, prefix + [k])
  {
    forall q | q in Keypaths(es) && q <= prefix + [k] ensures q == prefix + [k] {
      assert q == prefix + [k] || q <= prefix;
    }
  }

  lemma FirstKeyExpected(es: seq<Entry>, prefix: Path, q: Path)
    requires q != [] && prefix + q in Keypaths(es)
    ensures q[0] in NextKeys(es, prefix)
  {
    var j :| 0 <= j < |es| && Keypaths(es)[j] == prefix + q;
    assert Below(prefix, es[j].keypath) && es[j].keypath[|prefix|] in NextKeys(es, prefix);
  }

  // ---- what the mask holds ----

  lemma {:induction false} MaskLeaves<V>(es: seq<Entry>, selected: set<Text>, node: Tree<V>, prefix: Path)
    requires BuildMask(es, selected, node, prefix).Some? && NoEmpty(node)
    ensures var mask := BuildMask(es, selected, node, prefix).value;
            NoEmpty(mask) && mask.Branch? == node.Branch? && forall q :: MaskedAt(es, selected, node, mask, prefix, q)
    decreases node
  {
    var mask := BuildMask(es, selected, node, prefix).value;
    assert prefix + [] == prefix;
    if node.Branch? {
      forall k | k in node.kids
        ensures k in mask.kids && NoEmpty(mask.kids[k])
        ensures forall q :: MaskedAt(es, selected, node.kids[k], mask.kids[k], prefix + [k], q)
      {
        MaskLeaves(es, selected, node.kids[k], prefix + [k]);
      }
      assert mask.kids.Keys == node.kids.Keys;
      forall q ensures MaskedAt(es, selected, node, mask, prefix, q) {
        if q != [] && q[0] in node.kids {
          assert MaskedAt(es, selected, node.kids[q[0]], mask.kids[q[0]], prefix + [q[0]], q[1..]);
        }
        MaskedBelow(es, selected, node, mask, prefix, q);
      }
    }
  }

  lemma MaskedBelow<V>(es: seq<Entry>, selected: set<Text>, node: Tree<V>, mask: Tree<bool>, prefix: Path, q: Path)
    requires node.Branch? && mask.Branch? && mask.kids.Keys == node.kids.Keys
    requires q != [] && q[0] in node.kids ==>
               q[0] in mask.kids && MaskedAt(es, selected, node.kids[q[0]], mask.kids[q[0]], prefix + [q[0]], q[1..])
    ensures MaskedAt(es, selected, node, mask, prefix, q)
  {
    if q != [] { assert prefix + [q[0]] + q[1..] == prefix + q; }
  }

  /** At every leaf of the node the mask tells whether its entry is selected; elsewhere it has no leaf. */
  ghost predicate MaskedAt<V>(es: seq<Entry>, selected: set<Text>, node: Tree<V>, mask: Tree<bool>, prefix: Path, q: Path) {
    if IsLeafPath(node, q)
    then EntryAt(es, prefix + q).Some? && LeafAt(mask, q) == Some(EntryAt(es, prefix + q).value.logical in selected)
    else !IsLeafPath(mask, q)
  }

  /** Each entry's keypath with the leaf the factory makes for it. */
  function LeafEntries<V>(es: seq<Entry>, factory: Entry -> V): (r: Entries<V>)
    requires forall e | e in es :: e.keypath != []
    ensures Paths(r) == Keypaths(es) && forall e | e in r :: e.0 != []
  {
    var r := Map((e: Entry) => (e.keypath, factory(e)), es);
    assert forall i :: 0 <= i < |r| ==> es[i] in es && r[i].0 == es[i].keypath;
    r
  }

  function Picks(selected: set<Text>): Entry -> bool {
    (e: Entry) => e.logical in selected
  }

  function ArrayOf(): Entry -> ArrayId {
    (e: Entry) => e.arrayId
  }

  function Made<V>(factory: Entry -> V, e: Option<Entry>): Option<V> {
    if e.Some? then Some(factory(e.value)) else None
  }

  /** mapping_tree on values. */
  function MappingTree<V>(es: seq<Entry>, factory: Entry -> V): Option<Tree<V>>
    requires forall e | e in es :: e.keypath != []
  {
    Build(LeafEntries(es, factory))
  }

  /** mapping_tree as it is: nested dicts filled in place. It succeeds exactly when the
      keypaths are prefix-free, and walking the dicts then finds factory(e) at each
      entry's keypath and nothing anywhere else. */
  method MappingTreeInPlace<V>(es: seq<Entry>, factory: Entry -> V)
    returns (ok: bool, root: Dict<V>, ghost nodes: map<Path, Dict<V>>)
    requires forall e | e in es :: e.keypath != []
    ensures ok <==> PrefixFree(Keypaths(es))
    ensures ok ==> MappingTree(es, factory).Some? && Mirrors(root, nodes, MappingTree(es, factory).value)
    ensures ok ==> forall p | p != [] :: Walk(nodes, root, p) == Made(factory, EntryAt(es, p))
  {
    ok, root, nodes := BuildInPlace(LeafEntries(es, factory));
    if ok {
      forall p | p != [] ensures Walk(nodes, root, p) == Made(factory, EntryAt(es, p)) {
        MirrorsWalks(root, nodes, MappingTree(es, factory).value, p);
        BuildEffect(LeafEntries(es, factory));
        FindIsEntryAt(es, factory, p);
      }
    }
  }

  lemma {:induction false} FindIsEntryAt<V>(es: seq<Entry>, factory: Entry -> V, p: Path)
    requires forall e | e in es :: e.keypath != []
    ensures Find(LeafEntries(es, factory), p) == Made(factory, EntryAt(es, p))
  {
    if es != [] {
      assert LeafEntries(es, factory)[1..] == LeafEntries(es[1..], factory);
      FindIsEntryAt(es[1..], factory, p);
    }
  }

  lemma MappingTreeLeaves<V>(es: seq<Entry>, factory: Entry -> V)
    requires forall e | e in es :: e.keypath != []
    ensures MappingTree(es, factory).Some? <==> PrefixFree(Keypaths(es))
    ensures MappingTree(es, factory).Some? ==>
              var t := MappingTree(es, factory).value;
              t.Branch? && (es != [] ==> NoEmpty(t)) &&
              forall p :: LeafAt(t, p) == Made(factory, EntryAt(es, p))
  {
    BuildEffect(LeafEntries(es, factory));
    forall p { FindIsEntryAt(es, factory, p); }
  }

  /** The builder does not depend on the order of the entries. */
  lemma MappingTreeForgetsOrder<V(!new)>(a: seq<Entry>, b: seq<Entry>, factory: Entry -> V)
    requires multiset(a) == multiset(b) && forall e | e in a :: e.keypath != []
    ensures forall e | e in b :: e.keypath != []
    ensures MappingTree(a, factory) == MappingTree(b, factory)
  {
    assert forall e | e in b :: e in multiset(a);
    assert |multiset(a)| == |a| && |multiset(b)| == |b|;
    MappingTreeLeaves(a, factory);
    MappingTreeLeaves(b, factory);
    KeypathsPermute(a, b);
    if PrefixFree(Keypaths(a)) { PrefixFreePermutes(Keypaths(a), Keypaths(b)); }
    if PrefixFree(Keypaths(b)) { PrefixFreePermutes(Keypaths(b), Keypaths(a)); }
    if PrefixFree(Keypaths(a)) && a != [] {
      forall p { EntryAtPermutes(a, b, p); }
      SameLeavesSameTree(MappingTree(a, factory).value, MappingTree(b, factory).value);
    }
  }

  lemma EntryAtPermutes(a: seq<Entry>, b: seq<Entry>, p: Path)
    requires multiset(a) == multiset(b) && PrefixFree(Keypaths(b))
    ensures EntryAt(a, p) == EntryAt(b, p)
  {
    EntryAtFinds(a, p);
    EntryAtFinds(b, p);
    KeypathsPermute(a, b);
    assert p in Keypaths(a) <==> p in multiset(Keypaths(b));
    if EntryAt(a, p).Some? {
      assert EntryAt(a, p).value in multiset(b);
      SameEntry(b, EntryAt(a, p).value, EntryAt(b, p).value);
    }
  }

  lemma SameEntry(es: seq<Entry>, a: Entry, b: Entry)
    requires PrefixFree(Keypaths(es)) && a in es && b in es && a.keypath == b.keypath
    ensures a == b
  {
    var i :| 0 <= i < |es| && es[i] == a;
    var j :| 0 <= j < |es| && es[j] == b;
    assert Keypaths(es)[i] == Keypaths(es)[j];
    assert Comparable(Keypaths(es)[i], Keypaths(es)[j]);
  }

  lemma {:induction false} KeypathsPermute(a: seq<Entry>, b: seq<Entry>)
    requires multiset(a) == multiset(b)
    ensures multiset(Keypaths(a)) == multiset(Keypaths(b))
  {
    MapPermutes((e: Entry) => e.keypath, a, b);
  }

  lemma PrefixFreePermutes(a: seq<Path>, b: seq<Path>)
    requires multiset(a) == multiset(b) && PrefixFree(a)
    ensures PrefixFree(b)
  {
    assert forall i, j | 0 <= i < |a| && 0 <= j < |a| && i != j :: !Comparable(a[i], a[j]);
    forall i, j | 0 <= i < j < |b| ensures !Comparable(b[i], b[j]) {
      if b[i] == b[j] {
        Twice(b, i, j);
        TwoPlaces(a, b[i]);
      } else {
        assert b[i] in multiset(a) && b[j] in multiset(a);
      }
    }
  }

  // ---- the main theorems ----

  lemma MinimalWhenPrefixFree(es: seq<Entry>)
    ensures (PrefixFree(Keypaths(es)) ==> forall p :: Minimal(es, p) <==> p in Keypaths(es))
    ensures Distinct(Keypaths(es)) && (forall p :: p in Keypaths(es) ==> Minimal(es, p)) ==> PrefixFree(Keypaths(es))
  {
    var ks := Keypaths(es);
    if PrefixFree(ks) {
      forall p, q | p in ks && q in ks && q <= p ensures q == p {
        var i :| 0 <= i < |ks| && ks[i] == p;
        var j :| 0 <= j < |ks| && ks[j] == q;
        assert Comparable(ks[i], ks[j]) && Comparable(ks[j], ks[i]);
      }
    }
    if Distinct(ks) && forall p :: p in ks ==> Minimal(es, p) {
      forall i, j | 0 <= i < j < |ks| ensures !Comparable(ks[i], ks[j]) {
        assert Minimal(es, ks[i]) && Minimal(es, ks[j]);
      }
    }
  }

  ghost predicate LeavesAre<V>(t: Tree<V>, ps: seq<Path>) {
    NoEmpty(t) && forall p :: IsLeafPath(t, p) <==> p in ps
  }

  predicate Selectable(es: seq<Entry>, selected: seq<Text>) {
    (forall s :: s in selected ==> s in Logicals(es)) &&
    (forall e :: e in es && e.logical in selected ==> e.trainable)
  }

  /** On a prefix-free layout update_mask accepts exactly the trees whose leaves are the
      layout's keypaths, and its mask is mapping_tree of "is this entry selected". */
  lemma MaskTheorem<V>(es: seq<Entry>, parameters: Tree<V>, selected: seq<Text>)
    requires WellFormed(es) && PrefixFree(Keypaths(es))
    ensures UpdateMask(es, parameters, selected).Ok? <==> Selectable(es, selected) && LeavesAre(parameters, Keypaths(es))
    ensures UpdateMask(es, parameters, selected).Ok? ==>
              Some(UpdateMask(es, parameters, selected).value) == MappingTree(es, Picks(Elems(selected)))
    ensures UpdateMask(es, parameters, selected).Ok? ==>
              forall p :: IsLeafPath(UpdateMask(es, parameters, selected).value, p) <==> IsLeafPath(parameters, p)
    ensures UpdateMask(es, parameters, selected).Ok? ==>
              forall e | e in es :: LeafAt(UpdateMask(es, parameters, selected).value, e.keypath) == Some(e.logical in selected)
  {
    var chosen := Elems(selected);
    RootAccepts(es, chosen, parameters);
    MinimalWhenPrefixFree(es);
    SelectableIsChecked(es, selected);
    if BuildMask(es, chosen, parameters, []).Some? {
      MaskIsMappingTree(es, chosen, parameters);
      MaskTells(es, selected);
    }
  }

  lemma MaskTells(es: seq<Entry>, selected: seq<Text>)
    requires WellFormed(es) && MappingTree(es, Picks(Elems(selected))).Some?
    ensures forall e | e in es :: LeafAt(MappingTree(es, Picks(Elems(selected))).value, e.keypath) == Some(e.logical in selected)
  {
    var picks := Picks(Elems(selected));
    MappingTreeLeaves(es, picks);
    forall e | e in es ensures LeafAt(MappingTree(es, picks).value, e.keypath) == Some(e.logical in selected) { OwnEntry(es, e); }
  }

  lemma OwnEntry(es: seq<Entry>, e: Entry)
    requires Distinct(Keypaths(es)) && e in es
    ensures EntryAt(es, e.keypath) == Some(e)
  {
    var i :| 0 <= i < |es| && es[i] == e;
    assert Keypaths(es)[i] == e.keypath;
    EntryAtFinds(es, e.keypath);
    var found := EntryAt(es, e.keypath).value;
    var j :| 0 <= j < |es| && es[j] == found;
    assert Keypaths(es)[j] == e.keypath;
  }

  lemma SelectableIsChecked(es: seq<Entry>, selected: seq<Text>)
    ensures Selectable(es, selected) <==>
            !UnknownSelected(es, Elems(selected)) && !FixedSelected(es, Elems(selected))
  {
    assert forall s :: s in Elems(selected) <==> s in selected;
  }

  lemma RootAccepts<V>(es: seq<Entry>, selected: set<Text>, parameters: Tree<V>)
    requires WellFormed(es)
    ensures BuildMask(es, selected, parameters, []).Some? <==>
            NoEmpty(parameters) && forall p :: IsLeafPath(parameters, p) <==> Minimal(es, p)
  {
    RootReached(es);
    AcceptsMinimal(es, selected, parameters, []);
    if HoldsMinimal(es, parameters, []) {
      forall p ensures IsLeafPath(parameters, p) <==> Minimal(es, p) { assert [] + p == p; }
    }
    if forall p :: IsLeafPath(parameters, p) <==> Minimal(es, p) {
      forall p ensures IsLeafPath(parameters, p) <==> Minimal(es, [] + p) { assert [] + p == p; }
    }
  }

  lemma RootReached(es: seq<Entry>)
    requires WellFormed(es)
    ensures ReachedBy(es, []) && EntryAt(es, []).None? && ExpectedBranch(es, [])
  {
    EntryAtFinds(es, []);
    assert Below([], es[0].keypath);
  }

  lemma MaskIsMappingTree<V>(es: seq<Entry>, selected: set<Text>, parameters: Tree<V>)
    requires WellFormed(es) && PrefixFree(Keypaths(es))
    requires BuildMask(es, selected, parameters, []).Some?
    ensures BuildMask(es, selected, parameters, []) == MappingTree(es, Picks(selected))
    ensures forall p :: IsLeafPath(BuildMask(es, selected, parameters, []).value, p) <==> IsLeafPath(parameters, p)
  {
    var mask := BuildMask(es, selected, parameters, []).value;
    var picked := Picks(selected);
    RootAccepts(es, selected, parameters);
    MinimalWhenPrefixFree(es);
    MaskLeaves(es, selected, parameters, []);
    MappingTreeLeaves(es, picked);
    var t := MappingTree(es, picked).value;
    forall p ensures LeafAt(mask, p) == LeafAt(t, p) && (IsLeafPath(mask, p) <==> IsLeafPath(parameters, p)) {
      EntryAtFinds(es, p);
      PrefixNothing(p);
      assert MaskedAt(es, selected, parameters, mask, [], p);
    }
    SameLeavesSameTree(mask, t);
  }

  lemma PrefixNothing(p: Path)
    ensures [] + p == p
  {
  }

  /** Without the hypothesis: update_mask accepts some tree carrying every leaf of the
      layout exactly when the keypaths are prefix-free. */
  lemma MaskCoversIffPrefixFree<V>(es: seq<Entry>, selected: set<Text>, parameters: Tree<V>)
    requires WellFormed(es) && BuildMask(es, selected, parameters, []).Some?
    ensures (forall p :: p in Keypaths(es) ==> IsLeafPath(parameters, p)) <==> PrefixFree(Keypaths(es))
  {
    RootAccepts(es, selected, parameters);
    MinimalWhenPrefixFree(es);
  }

  /** The two-entry layout whose first leaf is also the way to its second. */
  function Overlap(a: Text, b: Text, id: ArrayId): seq<Entry> {
    [Entry(a, [a], id, true, None), Entry(a + [DOT] + b, [a, b], id, true, None)]
  }

  lemma LongerIsLater(a: Text, dot: Text, b: Text)
    requires dot != []
    ensures TextLt(a, a + dot + b)
  {
    LexPrefix(ByteLt, a, [], dot + b);
    assert a + [] == a && a + (dot + b) == a + dot + b;
  }

  /** The constructor takes it, and mapping_tree refuses it. */
  lemma OverlapIsALayout(a: Text, b: Text, id: ArrayId)
    requires a != [] && b != []
    ensures Make(Overlap(a, b, id)) == Ok(Overlap(a, b, id))
    ensures MappingTree(Overlap(a, b, id), ArrayOf()).None?
  {
    OverlapSorted(a, b, id);
    OverlapSeals(a, b, id);
    OverlapHasNoTree(a, b, id);
  }

  lemma OverlapSorted(a: Text, b: Text, id: ArrayId)
    ensures Sort(ByLogical, Overlap(a, b, id)) == Overlap(a, b, id)
  {
    var es := Overlap(a, b, id);
    TextOrder();
    LongerIsLater(a, [DOT], b);
    assert StrictlySorted(ByLogical, es) && StrictOrder(ByLogical);
    StrictlySortedDistinct(ByLogical, es);
    SortIdempotent(ByLogical, es);
  }

  lemma OverlapSeals(a: Text, b: Text, id: ArrayId)
    requires a != [] && b != []
    ensures Seal(Overlap(a, b, id)) == Ok(Overlap(a, b, id))
  {
    var es := Overlap(a, b, id);
    assert Keypaths(es) == [[a], [a, b]] && Logicals(es) == [a, a + [DOT] + b];
    forall x | x in HfKeys(es) ensures false { KeyAmong(es, x); }
  }

  lemma OverlapHasNoTree(a: Text, b: Text, id: ArrayId)
    ensures MappingTree(Overlap(a, b, id), ArrayOf()).None?
  {
    var es := Overlap(a, b, id);
    MappingTreeLeaves(es, ArrayOf());
    assert Keypaths(es)[0] == [a] && Keypaths(es)[1] == [a, b];
    assert Comparable(Keypaths(es)[0], Keypaths(es)[1]);
  }

  /** update_mask and validate_materialized_parameters accept a tree without its second leaf. */
  lemma OverlapLosesLeaf(a: Text, b: Text, id: ArrayId)
    requires a != [] && b != []
    ensures var es, parameters := Overlap(a, b, id), Branch(map[a := Leaf(id)]);
            && UpdateMask(es, parameters, []).Ok? && Check(es, parameters, [])
            && [a, b] in Keypaths(es) && !IsLeafPath(parameters, [a, b])
  {
    var es := Overlap(a, b, id);
    var node := Leaf(id);
    var parameters := Branch(map[a := node]);
    assert Keypaths(es) == [[a], [a, b]];
    assert es[0].keypath == [a] && es[1].keypath == [a, b];
    assert Below([], es[0].keypath) && Below([], es[1].keypath);
    assert NextKeys(es, []) == {a} by {
      assert es[0].keypath[0] == a && es[1].keypath[0] == a;
    }
    EntryAtFinds(es, []);
    assert [] + [a] == [a];
    assert EntryAt(es, [] + [a]) == Some(es[0]);
    assert BuildMask(es, {}, node, [] + [a]) == Some(Leaf(false));
    assert parameters.kids.Keys == {a};
    assert Elems<Text>([]) == {};
    assert BuildMask(es, {}, parameters, []).Some?;
    assert Keypaths(es)[1] == [a, b] && [a, b][1..] == [b];
    assert LeafAt(node, [b]).None?;
  }

  /** Every leaf of node carries the shape and dtype its entry declares. */
  ghost predicate Matches(es: seq<Entry>, node: Tree<ArrayId>, prefix: Path) {
    forall q :: IsLeafPath(node, q) ==> Made(ArrayOf(), EntryAt(es, prefix + q)) == LeafAt(node, q)
  }

  lemma MatchesBranch(es: seq<Entry>, node: Tree<ArrayId>, prefix: Path)
    requires node.Branch?
    ensures Matches(es, node, prefix) <==> forall k | k in node.kids :: Matches(es, node.kids[k], prefix + [k])
  {
    if Matches(es, node, prefix) {
      forall k, q | k in node.kids && IsLeafPath(node.kids[k], q)
        ensures Made(ArrayOf(), EntryAt(es, prefix + [k] + q)) == LeafAt(node.kids[k], q)
      {
        ChildLeaf(node, k, q);
        assert prefix + ([k] + q) == prefix + [k] + q;
      }
    }
    if forall k | k in node.kids :: Matches(es, node.kids[k], prefix + [k]) {
      forall q | IsLeafPath(node, q) ensures Made(ArrayOf(), EntryAt(es, prefix + q)) == LeafAt(node, q) {
        assert q == [q[0]] + q[1..];
        assert prefix + [q[0]] + q[1..] == prefix + q;
        assert Matches(es, node.kids[q[0]], prefix + [q[0]]);
      }
    }
  }

  /** validate_materialized_parameters accepts exactly the trees update_mask accepts whose
      leaves also carry the declared shape and dtype. This holds for every layout. */
  lemma {:induction false} CheckIsMaskAndMatch(es: seq<Entry>, node: Tree<ArrayId>, prefix: Path)
    requires ReachedBy(es, prefix) && (ExpectedBranch(es, prefix) || EntryAt(es, prefix).Some?)
    ensures Check(es, node, prefix) <==> BuildMask(es, {}, node, prefix).Some? && Matches(es, node, prefix)
    decreases node
  {
    EntryAtFinds(es, prefix);
    assert prefix + [] == prefix;
    if node.Leaf? {
      assert IsLeafPath(node, []);
      forall q | q != [] ensures !IsLeafPath(node, q) {}
    } else if EntryAt(es, prefix).None? && node.kids.Keys == NextKeys(es, prefix) {
      forall k | k in node.kids
        ensures Check(es, node.kids[k], prefix + [k]) <==>
                BuildMask(es, {}, node.kids[k], prefix + [k]).Some? && Matches(es, node.kids[k], prefix + [k])
      {
        NextReached(es, prefix, k);
        CheckIsMaskAndMatch(es, node.kids[k], prefix + [k]);
      }
      MatchesBranch(es, node, prefix);
    }
  }

  lemma NextReached(es: seq<Entry>, prefix: Path, k: Text)
    requires ReachedBy(es, prefix) && EntryAt(es, prefix).None? && k in NextKeys(es, prefix)
    ensures ReachedBy(es, prefix + [k])
    ensures ExpectedBranch(es, prefix + [k]) || EntryAt(es, prefix + [k]).Some?
  {
    EntryAtFinds(es, prefix);
    ReachedOn(es, prefix, k);
    NextExpected(es, prefix, k);
  }

  lemma NextExpected(es: seq<Entry>, prefix: Path, k: Text)
    requires k in NextKeys(es, prefix)
    ensures ExpectedBranch(es, prefix + [k]) || EntryAt(es, prefix + [k]).Some?
  {
    EntryAtFinds(es, prefix + [k]);
    var i :| 0 <= i < |es| && Below(prefix, es[i].keypath) && es[i].keypath[|prefix|] == k;
    assert es[i].keypath[..|prefix| + 1] == prefix + [k];
    assert Keypaths(es)[i] == es[i].keypath;
    if |es[i].keypath| > |prefix| + 1 {
      assert Below(prefix + [k], es[i].keypath);
    } else {
      assert es[i].keypath == prefix + [k];
    }
  }
}
