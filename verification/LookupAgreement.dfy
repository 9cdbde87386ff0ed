/** The separately written lookups all name the tensor row of the example that the global
    row index means. */
module LookupAgreement {
  import opened Basics
  import opened Ordering
  import opened SplitPolicy
  import opened Materialize

  lemma {:induction false} ZipLookupAt(keys: seq<nat>, values: seq<Text>, k: nat)
    requires |keys| == |values| && k < |keys| && Distinct(keys)
    ensures ZipLookup(keys, values, keys[k]) == Some(values[k])
  {
    if k > 0 {
      assert keys[0] != keys[k];
      ZipLookupAt(keys[1..], values[1..], k - 1);
    }
  }

  lemma {:induction false} IndexOfAt(values: seq<Text>, k: nat)
    requires k < |values| && Distinct(values)
    ensures IndexOf(values, values[k]) == Some(k)
  {
    if k > 0 {
      assert values[0] != values[k];
      IndexOfAt(values[1..], k - 1);
    }
  }

  /** In an increasing sequence the smaller elements of the k-th are the k before it. */
  lemma {:induction false} SearchSortedAt(keys: seq<nat>, k: nat)
    requires StrictlySorted(NatLt, keys) && k < |keys|
    ensures SearchSorted(keys, keys[k]) == k
  {
    CountBelow(keys, keys[k], k);
  }

  lemma {:induction false} CountBelow(keys: seq<nat>, x: nat, k: nat)
    requires k <= |keys| && (forall i | 0 <= i < k :: keys[i] < x) && (forall i | k <= i < |keys| :: keys[i] >= x)
    ensures SearchSorted(keys, x) == k
  {
    if keys != [] {
      var front := keys[..|keys| - 1];
      CountBelow(front, x, if k == |keys| then k - 1 else k);
      assert Filter((i: nat) => i < x, keys) ==
             Filter((i: nat) => i < x, front) + if keys[|keys| - 1] < x then [keys[|keys| - 1]] else [];
    }
  }

  ghost predicate Built(partition: Partition, a: map<Text, Partition>, ids: seq<Text>,
                        inputIds: seq<Row>, mask: seq<Row>, rows: seq<Assignment>, b: CorridorBatch)
  {
    && |inputIds| == |mask| == |ids| && Distinct(ids)
    && MakeCorridorBatch(partition, a, ids, inputIds, mask, rows) == Ok(b) && Sealed(b)
  }

  lemma BuiltShape(partition: Partition, a: map<Text, Partition>, ids: seq<Text>,
                   inputIds: seq<Row>, mask: seq<Row>, rows: seq<Assignment>, b: CorridorBatch)
    requires Built(partition, a, ids, inputIds, mask, rows, b)
    ensures var g := GlobalRows(b);
            && StrictlySorted(NatLt, g) && (forall i | i in g :: i < |ids|)
            && |b.exampleIds| == |b.inputIds| == |b.mask| == |g|
            && (forall k | 0 <= k < |g| :: g[k] < |ids| && b.exampleIds[k] == ids[g[k]] && b.inputIds[k] == inputIds[g[k]] && b.mask[k] == mask[g[k]])
            && Distinct(b.exampleIds) && (forall r | r in b.rows :: r.index in g)
  {
    SelectedOk(partition, a, ids);
    SealsIffCovered(partition, a, ids, inputIds, mask, rows);
    MadeShape(partition, a, ids, inputIds, mask, rows, b, GlobalRows(b));
  }

  lemma MadeShape(partition: Partition, a: map<Text, Partition>, ids: seq<Text>,
                  inputIds: seq<Row>, mask: seq<Row>, rows: seq<Assignment>, b: CorridorBatch, g: seq<nat>)
    requires |inputIds| == |mask| == |ids| && Distinct(ids)
    requires MakeCorridorBatch(partition, a, ids, inputIds, mask, rows) == Ok(b)
    requires g == Selected(partition, a, ids) && StrictlySorted(NatLt, g) && forall i | i in g :: i < |ids|
    ensures |b.exampleIds| == |b.inputIds| == |b.mask| == |g|
    ensures forall k | 0 <= k < |g| :: g[k] < |ids| && b.exampleIds[k] == ids[g[k]] && b.inputIds[k] == inputIds[g[k]] && b.mask[k] == mask[g[k]]
    ensures Distinct(b.exampleIds) && forall r | r in b.rows :: r.index in g
  {
    forall k | 0 <= k < |g| ensures g[k] < |ids| { assert g[k] in g; }
    PickedDistinct(ids, g, b.exampleIds);
  }

  lemma PickedDistinct(ids: seq<Text>, g: seq<nat>, picked: seq<Text>)
    requires Distinct(ids) && StrictlySorted(NatLt, g) && |picked| == |g|
    requires forall k | 0 <= k < |g| :: g[k] < |ids| && picked[k] == ids[g[k]]
    ensures Distinct(picked)
  {
    forall i, j | 0 <= i < j < |g| ensures picked[i] != picked[j] {
      assert NatLt(g[i], g[j]);
      assert ids[g[i]] != ids[g[j]];
    }
  }

  /** For every assignment row of a sealed batch: the zip over sorted unique rows, the rank
      by searchsorted and example_ids.index all lead to the row holding that example's data. */
  lemma LookupsAgree(partition: Partition, a: map<Text, Partition>, ids: seq<Text>,
                     inputIds: seq<Row>, mask: seq<Row>, rows: seq<Assignment>, b: CorridorBatch, r: Assignment)
    requires Built(partition, a, ids, inputIds, mask, rows, b) && r in b.rows
    ensures r.index < |ids|
    ensures var k := SearchSorted(GlobalRows(b), r.index);
            && k < |b.inputIds| == |b.exampleIds| == |b.mask|
            && GlobalRows(b)[k] == r.index
            && IdOf(b, r) == Some(ids[r.index]) && b.exampleIds[k] == ids[r.index]
            && IndexOf(b.exampleIds, ids[r.index]) == Some(k)
            && b.inputIds[k] == inputIds[r.index] && b.mask[k] == mask[r.index]
  {
    BuiltShape(partition, a, ids, inputIds, mask, rows, b);
    var g := GlobalRows(b);
    var k :| 0 <= k < |g| && g[k] == r.index;
    NatOrder();
    StrictlySortedDistinct(NatLt, g);
    SearchSortedAt(g, k);
    ZipLookupAt(g, b.exampleIds, k);
    IndexOfAt(b.exampleIds, k);
  }

  // ---- _find_corridor_coordinate ----

  function Matches(b: CorridorBatch, c: Coordinate): seq<Assignment> {
    Filter((r: Assignment) => IdOf(b, r) == Some(c.id) && r.position == c.position && r.mode == c.mode, b.rows)
  }

  /** The local row and weight of the one row with this coordinate; None where it raises. */
  function FindCoordinate(b: CorridorBatch, c: Coordinate): Option<(nat, real)> {
    if !Sealed(b) || |Matches(b, c)| != 1 then None
    else
      var r := Matches(b, c)[0];
      match IndexOf(b.exampleIds, c.id)
      case None => None
      case Some(row) =>
        if row >= |b.inputIds| || c.position >= |b.inputIds[row]| || r.weight < 0.0 then None else Some((row, r.weight))
  }

  /** A coordinate that is found is one row's, and the row index found is that row's rank. */
  lemma FoundIsRanked(partition: Partition, a: map<Text, Partition>, ids: seq<Text>,
                      inputIds: seq<Row>, mask: seq<Row>, rows: seq<Assignment>, b: CorridorBatch, c: Coordinate)
    requires Built(partition, a, ids, inputIds, mask, rows, b) && FindCoordinate(b, c).Some?
    ensures |Matches(b, c)| == 1
    ensures var r := Matches(b, c)[0];
            && r in b.rows && r.index < |ids| && c == Coordinate(ids[r.index], r.position, r.mode)
            && FindCoordinate(b, c) == Some((SearchSorted(GlobalRows(b), r.index), r.weight))
            && (forall other | other in b.rows && other.index < |ids| &&
                  Coordinate(ids[other.index], other.position, other.mode) == c :: other == r)
  {
    var ms := Matches(b, c);
    var r := ms[0];
    MatchIsRanked(partition, a, ids, inputIds, mask, rows, b, c, r);
    forall other | other in b.rows && other.index < |ids| && Coordinate(ids[other.index], other.position, other.mode) == c
      ensures other == r
    {
      OtherMatches(partition, a, ids, inputIds, mask, rows, b, c, other);
      assert ms == [r];
    }
  }

  lemma MatchIsRanked(partition: Partition, a: map<Text, Partition>, ids: seq<Text>,
                      inputIds: seq<Row>, mask: seq<Row>, rows: seq<Assignment>, b: CorridorBatch, c: Coordinate, r: Assignment)
    requires Built(partition, a, ids, inputIds, mask, rows, b) && r in Matches(b, c)
    ensures r in b.rows && r.index < |ids| && c == Coordinate(ids[r.index], r.position, r.mode)
    ensures IndexOf(b.exampleIds, c.id) == Some(SearchSorted(GlobalRows(b), r.index))
  {
    LookupsAgree(partition, a, ids, inputIds, mask, rows, b, r);
  }

  lemma OtherMatches(partition: Partition, a: map<Text, Partition>, ids: seq<Text>,
                     inputIds: seq<Row>, mask: seq<Row>, rows: seq<Assignment>, b: CorridorBatch, c: Coordinate, other: Assignment)
    requires Built(partition, a, ids, inputIds, mask, rows, b) && other in b.rows
    requires other.index < |ids| && Coordinate(ids[other.index], other.position, other.mode) == c
    ensures other in Matches(b, c)
  {
    LookupsAgree(partition, a, ids, inputIds, mask, rows, b, other);
  }

  // ---- _ordered_batch ----

  /** corridor_pass names rows by indexing the local IDs with the global row. */
  ghost predicate NamedByGlobalIndex(b: CorridorBatch, ids: seq<Text>) {
    forall r | r in b.rows :: r.index < |b.exampleIds| && r.index < |ids| && b.exampleIds[r.index] == ids[r.index]
  }

  /** Some row's index lies past the local IDs, so indexing them raises. */
  ghost predicate NamingRaises(b: CorridorBatch) { exists r :: r in b.rows && r.index >= |b.exampleIds| }

  lemma {:induction false} RanksOrBeyond(g: seq<nat>)
    requires StrictlySorted(NatLt, g)
    ensures g == Upto(|g|) <==> forall k | 0 <= k < |g| :: g[k] < |g|
  {
    if forall k | 0 <= k < |g| :: g[k] < |g| {
      forall k | 0 <= k < |g| ensures g[k] == k { AtLeastPlace(g, k); AtMostPlace(g, k); }
      assert g == Upto(|g|);
    }
  }

  lemma RowsAndRanks(partition: Partition, a: map<Text, Partition>, ids: seq<Text>,
                     inputIds: seq<Row>, mask: seq<Row>, rows: seq<Assignment>, b: CorridorBatch)
    requires Built(partition, a, ids, inputIds, mask, rows, b)
    ensures NamingRaises(b) <==> !forall k | 0 <= k < |GlobalRows(b)| :: GlobalRows(b)[k] < |GlobalRows(b)|
  {
    BuiltShape(partition, a, ids, inputIds, mask, rows, b);
    SealsIffCovered(partition, a, ids, inputIds, mask, rows);
    var g := GlobalRows(b);
    if NamingRaises(b) {
      var r :| r in b.rows && r.index >= |b.exampleIds|;
      var k :| 0 <= k < |g| && g[k] == r.index;
    }
    if k :| 0 <= k < |g| && g[k] >= |g| {
      assert g[k] in g;
      var r :| r in rows && r.index == g[k];
      assert r in b.rows;
    }
  }

  /** That naming is right for all rows exactly when the partition holds the first examples
      of the registry; otherwise it raises. */
  lemma OrderedBatchExact(partition: Partition, a: map<Text, Partition>, ids: seq<Text>,
                          inputIds: seq<Row>, mask: seq<Row>, rows: seq<Assignment>, b: CorridorBatch)
    requires Built(partition, a, ids, inputIds, mask, rows, b)
    ensures NamedByGlobalIndex(b, ids) <==> Selected(partition, a, ids) == Upto(|b.exampleIds|)
    ensures NamedByGlobalIndex(b, ids) <==> !NamingRaises(b)
  {
    BuiltShape(partition, a, ids, inputIds, mask, rows, b);
    SealsIffCovered(partition, a, ids, inputIds, mask, rows);
    RowsAndRanks(partition, a, ids, inputIds, mask, rows, b);
    RanksOrBeyond(GlobalRows(b));
    if GlobalRows(b) == Upto(|b.exampleIds|) {
      var g := GlobalRows(b);
      forall r | r in b.rows
        ensures r.index < |b.exampleIds| && r.index < |ids| && b.exampleIds[r.index] == ids[r.index]
      {
        var k :| 0 <= k < |g| && g[k] == r.index;
      }
    }
  }

  /** Both partitions cannot start the registry: for one of them naming raises. */
  lemma OneSideRaises(a: map<Text, Partition>, ids: seq<Text>, inputIds: seq<Row>, mask: seq<Row>, rows: seq<Assignment>,
                      t: CorridorBatch, h: CorridorBatch)
    requires Built(Training, a, ids, inputIds, mask, rows, t) && Built(HeldOut, a, ids, inputIds, mask, rows, h)
    ensures NamingRaises(t) || NamingRaises(h)
  {
    FirstIsHeld(Training, a, ids, inputIds, mask, rows, t);
    FirstIsHeld(HeldOut, a, ids, inputIds, mask, rows, h);
  }

  lemma FirstIsHeld(partition: Partition, a: map<Text, Partition>, ids: seq<Text>,
                    inputIds: seq<Row>, mask: seq<Row>, rows: seq<Assignment>, b: CorridorBatch)
    requires Built(partition, a, ids, inputIds, mask, rows, b)
    ensures !NamingRaises(b) ==> ids != [] && ids[0] in a && a[ids[0]] == partition
  {
    OrderedBatchExact(partition, a, ids, inputIds, mask, rows, b);
    SelectedOk(partition, a, ids);
    assert b.exampleIds != [];
    assert Upto(|b.exampleIds|)[0] == 0 && 0 in Upto(|b.exampleIds|);
  }

  /** On a registry of five or more examples in canonical order, naming the rows of the
      training batch always raises, whichever examples bear exemplars. */
  lemma CanonicalTrainingRaises(source: string, ids: seq<Text>, exemplarIds: seq<Text>, s: Split,
                                inputIds: seq<Row>, mask: seq<Row>, rows: seq<Assignment>, t: CorridorBatch)
    requires StrictlySorted(TextLt, ids) && |ids| >= 5
    requires Checks(source, ids, exemplarIds).None? && IsSplit(source, ids, exemplarIds, s)
    requires Built(Training, s.assignments, ids, inputIds, mask, rows, t)
    ensures NamingRaises(t)
  {
    var first, last := Pins(source, ids, exemplarIds, s);
    AlreadySorted(ids);
    var i, j := HeldOutBeforeTraining(ids, first, last, s.assignments);
    OrderedBatchExact(Training, s.assignments, ids, inputIds, mask, rows, t);
    SelectedOk(Training, s.assignments, ids);
    NotAnInitialPart(Selected(Training, s.assignments, ids), |t.exampleIds|, i, j);
  }

  lemma AlreadySorted(ids: seq<Text>)
    requires StrictlySorted(TextLt, ids)
    ensures Sort(TextLt, ids) == ids
  {
    TextOrder();
    StrictlySortedDistinct(TextLt, ids);
    SortIdempotent(TextLt, ids);
  }

  lemma NotAnInitialPart(selected: seq<nat>, n: nat, i: nat, j: nat)
    requires i < j && i !in selected && j in selected
    ensures selected != Upto(n)
  {
    assert forall k | 0 <= k < n :: Upto(n)[k] == k;
    assert i < n ==> Upto(n)[i] in Upto(n);
  }

  /** A registry that lists two exemplars against their canonical order is accepted and split,
      and both batches seal; the training batch holds row 1, and naming its rows raises. */
  lemma TrainingRaises(source: string, x: Text, y: Text, inputIds: seq<Row>, mask: seq<Row>, rows: seq<Assignment>, s: Split)
    requires IsSha256(source) && x != [] && TextLt(x, y) && |inputIds| == |mask| == 2
    requires (exists r :: r in rows && r.index == 0) && (exists r :: r in rows && r.index == 1)
    requires IsSplit(source, [y, x], [y, x], s)
    ensures Checks(source, [y, x], [y, x]).None?
    ensures var t, h := MakeCorridorBatch(Training, s.assignments, [y, x], inputIds, mask, rows),
                        MakeCorridorBatch(HeldOut, s.assignments, [y, x], inputIds, mask, rows);
            && t.Ok? && Built(Training, s.assignments, [y, x], inputIds, mask, rows, t.value) && t.value.exampleIds == [x]
            && h.Ok? && Built(HeldOut, s.assignments, [y, x], inputIds, mask, rows, h.value) && h.value.exampleIds == [y]
            && NamingRaises(t.value) && !NamingRaises(h.value)
  {
    var ids := [y, x];
    TwoIds(source, x, y, s);
    OneIsBuilt(Training, s.assignments, ids, inputIds, mask, rows, 1);
    OneIsBuilt(HeldOut, s.assignments, ids, inputIds, mask, rows, 0);
    var t := MakeCorridorBatch(Training, s.assignments, ids, inputIds, mask, rows).value;
    var h := MakeCorridorBatch(HeldOut, s.assignments, ids, inputIds, mask, rows).value;
    OrderedBatchExact(Training, s.assignments, ids, inputIds, mask, rows, t);
    OrderedBatchExact(HeldOut, s.assignments, ids, inputIds, mask, rows, h);
    assert Upto(1) == [0];
  }

  /** The registry of two: each is pinned to its own side. */
  lemma TwoIds(source: string, x: Text, y: Text, s: Split)
    requires IsSha256(source) && x != [] && TextLt(x, y) && IsSplit(source, [y, x], [y, x], s)
    ensures Checks(source, [y, x], [y, x]).None? && x != y
    ensures x in s.assignments && y in s.assignments && s.assignments[x] == Training && s.assignments[y] == HeldOut
  {
    TextOrder();
    TwoSorted(x, y);
    assert y != [] by { assert TextLt(x, y); }
    TwoPinned(x, y, s.assignments);
  }

  lemma TwoPinned(x: Text, y: Text, a: map<Text, Partition>)
    requires x != y && Alternates([x, y], x, y, a)
    ensures x in a && y in a && a[x] == Training && a[y] == HeldOut
  {
    AlternatesAt([x, y], x, y, a, 0);
    AlternatesAt([x, y], x, y, a, 1);
  }

  lemma TwoSorted(x: Text, y: Text)
    requires TextLt(x, y)
    ensures Sort(TextLt, [y, x]) == [x, y] && CanonicalIds([y, x]) == [x, y]
  {
    TextOrder();
    assert StrictlySorted(TextLt, [x, y]);
    AscendingUnique(TextLt, [x, y]);
    assert Distinct([y, x]) && Elems([y, x]) == Elems([x, y]);
    SortIsAscending(TextLt, [y, x]);
    UniqueAscends(TextLt, [y, x]);
  }

  /** A partition holding one covered example of the registry builds and seals. */
  lemma OneIsBuilt(partition: Partition, a: map<Text, Partition>, ids: seq<Text>,
                   inputIds: seq<Row>, mask: seq<Row>, rows: seq<Assignment>, i: nat)
    requires |inputIds| == |mask| == |ids| && Distinct(ids) && i < |ids|
    requires forall k | 0 <= k < |ids| :: (ids[k] in a && a[ids[k]] == partition) <==> k == i
    requires exists r :: r in rows && r.index == i
    ensures Selected(partition, a, ids) == [i]
    ensures var b := MakeCorridorBatch(partition, a, ids, inputIds, mask, rows);
            b.Ok? && Built(partition, a, ids, inputIds, mask, rows, b.value) && b.value.exampleIds == [ids[i]]
  {
    SelectedOk(partition, a, ids);
    OnlyOne(Selected(partition, a, ids), i);
    var r :| r in rows && r.index == i;
    assert r in Included(partition, a, ids, rows);
    SealsIffCovered(partition, a, ids, inputIds, mask, rows);
  }

  lemma OnlyOne(sel: seq<nat>, i: nat)
    requires StrictlySorted(NatLt, sel) && forall k: nat :: k in sel <==> k == i
    ensures sel == [i]
  {
    assert i in sel;
    assert forall k | 0 <= k < |sel| :: sel[k] in sel;
    assert |sel| > 1 ==> NatLt(sel[0], sel[1]);
  }

  lemma {:induction false} AtLeastPlace(g: seq<nat>, k: nat)
    requires StrictlySorted(NatLt, g) && k < |g|
    ensures g[k] >= k
  {
    if k > 0 {
      AtLeastPlace(g, k - 1);
      assert NatLt(g[k - 1], g[k]);
    }
  }

  lemma {:induction false} AtMostPlace(g: seq<nat>, k: nat)
    requires StrictlySorted(NatLt, g) && k < |g| && forall i | 0 <= i < |g| :: g[i] < |g|
    ensures g[k] <= k
    decreases |g| - k
  {
    if k + 1 < |g| {
      AtMostPlace(g, k + 1);
      assert NatLt(g[k], g[k + 1]);
    }
  }

  // ---- the coordinates a descriptor lists ----

  function NamedBy(ids: seq<Text>): Assignment -> Coordinate {
    (r: Assignment) => Coordinate(if r.index < |ids| then ids[r.index] else [], r.position, r.mode)
  }

  lemma {:induction false} MapAgrees<A, B>(f: A -> B, g: A -> B, s: seq<A>)
    requires forall x | x in s :: f(x) == g(x)
    ensures Map(f, s) == Map(g, s)
  {
    forall i | 0 <= i < |s| ensures Map(f, s)[i] == Map(g, s)[i] { assert s[i] in s; }
  }

  /** A sealed batch lists its rows' coordinates, each with the ID that the registry gives the
      row's global index, ascending, as often as they occur. */
  lemma CoordinatesAre(partition: Partition, a: map<Text, Partition>, ids: seq<Text>,
                       inputIds: seq<Row>, mask: seq<Row>, rows: seq<Assignment>, b: CorridorBatch)
    requires Built(partition, a, ids, inputIds, mask, rows, b)
    ensures (forall r | r in b.rows :: r.index < |ids|) && Coordinates(b).Some?
    ensures multiset(Coordinates(b).value) == multiset(Map(NamedBy(ids), b.rows))
    ensures forall i, j | 0 <= i < j < |Coordinates(b).value| :: NotAfter(Coordinates(b).value[i], Coordinates(b).value[j])
  {
    forall r | r in b.rows ensures r.index < |ids| && Coordinator(b)(r) == NamedBy(ids)(r) {
      LookupsAgree(partition, a, ids, inputIds, mask, rows, b, r);
    }
    MapAgrees(Coordinator(b), NamedBy(ids), b.rows);
    SortsCoordinates(Map(Coordinator(b), b.rows));
    forall i, j | 0 <= i < j < |Coordinates(b).value| ensures NotAfter(Coordinates(b).value[i], Coordinates(b).value[j]) {
      InOrder(Coordinates(b).value[i], Coordinates(b).value[j]);
    }
  }

  /** x stands before y: by the bytes of the ID, then the position, then the mode. */
  ghost predicate NotAfter(x: Coordinate, y: Coordinate) {
    || BytesBefore(x.id, y.id)
    || (x.id == y.id && (x.position < y.position || (x.position == y.position && x.mode <= y.mode)))
  }

  lemma InOrder(x: Coordinate, y: Coordinate)
    requires !CoordinateLt(y, x)
    ensures NotAfter(x, y)
  {
    TextOrder();
    TextOrderIsBytes(x.id, y.id);
    TextOrderIsBytes(y.id, x.id);
  }

  lemma CoordinateOrder()
    ensures TotalOrder(CoordinateLt)
  {
    TextOrder();
    forall x, y, z | CoordinateLt(x, y) && CoordinateLt(y, z) ensures CoordinateLt(x, z) {}
    forall x, y | x != y ensures CoordinateLt(x, y) || CoordinateLt(y, x) {}
  }

  lemma SortsCoordinates(cs: seq<Coordinate>)
    ensures Sorted(CoordinateLt, Sort(CoordinateLt, cs))
  {
    CoordinateOrder();
    SortSorted(CoordinateLt, cs);
  }
}
