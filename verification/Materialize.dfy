/** Partitioned corridor batches, and the separately written lookups from a global row to
    the local tensor row. */
module Materialize {
  import opened Basics
  import opened Ordering
  import opened SplitPolicy

  type Row = seq<int>

  datatype Assignment = Assignment(index: nat, position: int, mode: int, weight: real)

  /** example_indices keep the registry's global rows; exampleIds and tensors are local. */
  datatype CorridorBatch = CorridorBatch(
    partition: Partition, exampleIds: seq<Text>, inputIds: seq<Row>, mask: seq<Row>, rows: seq<Assignment>)

  datatype BatchError = EmptyPartition | NoAssignments | Incomplete | NotCovered

  predicate NatLt(a: nat, b: nat) { a < b }

  lemma NatOrder()
    ensures TotalOrder(NatLt)
  {
  }

  /** 0, 1, ..., n - 1 */
  function Upto(n: nat): (r: seq<nat>)
    ensures |r| == n && forall i :: 0 <= i < n ==> r[i] == i
  {
    if n == 0 then [] else Upto(n - 1) + [n - 1]
  }

  /** The registry indices whose example is assigned to the partition, ascending. */
  function Selected(partition: Partition, a: map<Text, Partition>, ids: seq<Text>): seq<nat> {
    Filter((i: nat) => i < |ids| && ids[i] in a && a[ids[i]] == partition, Upto(|ids|))
  }

  function Pick<T>(s: seq<T>, at: seq<nat>): (r: seq<T>)
    requires forall i | i in at :: i < |s|
    ensures |r| == |at| && forall k | 0 <= k < |at| :: at[k] < |s| && r[k] == s[at[k]]
  {
    if at == [] then []
    else
      assert at[0] in at && forall i | i in at[1..] :: i in at;
      [s[at[0]]] + Pick(s, at[1..])
  }

  lemma SelectedOk(partition: Partition, a: map<Text, Partition>, ids: seq<Text>)
    ensures var sel := Selected(partition, a, ids);
            && StrictlySorted(NatLt, sel)
            && (forall i: nat :: i in sel <==> i < |ids| && ids[i] in a && a[ids[i]] == partition)
  {
    FilterStrictlySorted(NatLt, (i: nat) => i < |ids| && ids[i] in a && a[ids[i]] == partition, Upto(|ids|));
    forall i: nat | i < |ids| ensures i in Upto(|ids|) { assert Upto(|ids|)[i] == i; }
  }

  /** The assignment rows of the partition, in their original order. */
  function Included(partition: Partition, a: map<Text, Partition>, ids: seq<Text>, rows: seq<Assignment>): seq<Assignment> {
    Filter((r: Assignment) => r.index in Selected(partition, a, ids), rows)
  }

  /** _corridor_batch */
  function MakeCorridorBatch(partition: Partition, a: map<Text, Partition>, ids: seq<Text>,
                             inputIds: seq<Row>, mask: seq<Row>, rows: seq<Assignment>): Result<CorridorBatch, BatchError>
    requires |inputIds| == |mask| == |ids|
  {
    SelectedOk(partition, a, ids);
    var sel := Selected(partition, a, ids);
    if sel == [] then Err(EmptyPartition)
    else
      var included := Included(partition, a, ids, rows);
      if included == [] then Err(NoAssignments)
      else Ok(CorridorBatch(partition, Pick(ids, sel), Pick(inputIds, sel), Pick(mask, sel), included))
  }

  // ---- the lookups ----

  function Indices(rows: seq<Assignment>): seq<nat> { Map((r: Assignment) => r.index, rows) }

  /** sorted(set(example_indices)), np.unique(example_indices) */
  function GlobalRows(b: CorridorBatch): seq<nat> { UniqueSorted(NatLt, Indices(b.rows)) }

  /** dict(zip(keys, values))[key], keys being distinct. */
  function ZipLookup(keys: seq<nat>, values: seq<Text>, key: nat): Option<Text> {
    if keys == [] || values == [] then None
    else if keys[0] == key then Some(values[0])
    else ZipLookup(keys[1..], values[1..], key)
  }

  /** np.searchsorted(keys, key): how many keys are smaller. */
  function SearchSorted(keys: seq<nat>, key: nat): (r: nat)
    ensures r <= |keys|
  {
    |Filter((k: nat) => k < key, keys)|
  }

  /** values.index(x) */
  function IndexOf(values: seq<Text>, x: Text): Option<nat> {
    if values == [] then None
    else if values[0] == x then Some(0)
    else match IndexOf(values[1..], x) case None => None case Some(k) => Some(k + 1)
  }

  /** One coordinate (example ID, position, mode). */
  datatype Coordinate = Coordinate(id: Text, position: int, mode: int)

  /** Canonical order of coordinates: ID bytes, then position, then mode. */
  predicate CoordinateLt(x: Coordinate, y: Coordinate) {
    || TextLt(x.id, y.id)
    || (x.id == y.id && (x.position < y.position || (x.position == y.position && x.mode < y.mode)))
  }

  /** Shapes as _coordinates insists: one tensor row and one assigned row per example. */
  predicate Sealed(b: CorridorBatch) {
    |b.exampleIds| == |b.inputIds| && |GlobalRows(b)| == |b.exampleIds|
  }

  /** The ID models.py and evaluation.py give an assignment row. */
  function IdOf(b: CorridorBatch, r: Assignment): Option<Text> { ZipLookup(GlobalRows(b), b.exampleIds, r.index) }

  /** _coordinates of models.py and evaluation.py: None where they raise. */
  function Coordinates(b: CorridorBatch): Option<seq<Coordinate>> {
    if !Sealed(b) then None
    else Some(Sort(CoordinateLt, Map(Coordinator(b), b.rows)))
  }

  function Coordinator(b: CorridorBatch): Assignment -> Coordinate {
    (r: Assignment) => Coordinate(IdOf(b, r).GetOr([]), r.position, r.mode)
  }

  // ---- partition ----

  /** Every row goes to exactly one of the two partitions, occurrences and order kept. */
  lemma RowsPartitioned(a: map<Text, Partition>, ids: seq<Text>, rows: seq<Assignment>)
    requires (forall id | id in ids :: id in a) && forall r | r in rows :: r.index < |ids|
    ensures var t, h := Included(Training, a, ids, rows), Included(HeldOut, a, ids, rows);
            && multiset(t) + multiset(h) == multiset(rows)
            && (forall r | r in rows :: r in t <==> r !in h)
            && t == Filter((r: Assignment) => r.index in Selected(Training, a, ids), rows)
            && h == Filter((r: Assignment) => r.index in Selected(HeldOut, a, ids), rows)
  {
    SelectedOk(Training, a, ids);
    SelectedOk(HeldOut, a, ids);
    var p := (r: Assignment) => r.index in Selected(Training, a, ids);
    var q := (r: Assignment) => r.index in Selected(HeldOut, a, ids);
    forall r | r in rows ensures p(r) <==> !q(r) {
      assert ids[r.index] in ids;
    }
    FilterComplement(p, q, rows);
  }

  /** A built batch seals exactly when every example of the partition has an assignment row. */
  lemma SealsIffCovered(partition: Partition, a: map<Text, Partition>, ids: seq<Text>,
                        inputIds: seq<Row>, mask: seq<Row>, rows: seq<Assignment>)
    requires |inputIds| == |mask| == |ids|
    requires MakeCorridorBatch(partition, a, ids, inputIds, mask, rows).Ok?
    ensures var b, sel := MakeCorridorBatch(partition, a, ids, inputIds, mask, rows).value, Selected(partition, a, ids);
            && (Sealed(b) <==> forall i | i in sel :: exists r :: r in rows && r.index == i)
            && (Sealed(b) <==> GlobalRows(b) == sel)
  {
    var b := MakeCorridorBatch(partition, a, ids, inputIds, mask, rows).value;
    var sel := Selected(partition, a, ids);
    SelectedOk(partition, a, ids);
    forall i { IndexUsed(partition, a, ids, rows, i); }
    SameSizeRows(Indices(b.rows), sel);
    if forall i | i in sel :: exists r :: r in rows && r.index == i {
      forall i | i in sel ensures i in Elems(Indices(b.rows)) {}
    }
    if Elems(Indices(b.rows)) == Elems(sel) {
      forall i | i in sel ensures exists r :: r in rows && r.index == i { assert i in Elems(sel); }
    }
  }

  /** Distinct rows from sel are as many as sel exactly when they are sel. */
  lemma SameSizeRows(used: seq<nat>, sel: seq<nat>)
    requires StrictlySorted(NatLt, sel) && forall i | i in Elems(used) :: i in sel
    ensures |UniqueSorted(NatLt, used)| == |sel| <==> UniqueSorted(NatLt, used) == sel
    ensures UniqueSorted(NatLt, used) == sel <==> Elems(used) == Elems(sel)
  {
    var g := UniqueSorted(NatLt, used);
    NatOrder();
    UniqueAscends(NatLt, used);
    AscendingUnique(NatLt, sel);
    StrictlySortedDistinct(NatLt, sel);
    StrictlySortedDistinct(NatLt, g);
    DistinctCard(sel);
    DistinctCard(g);
    assert Elems(g) == Elems(used) && Elems(used) <= Elems(sel);
    if |g| == |sel| { SameSizeSubset(Elems(g), Elems(sel)); }
  }

  lemma IndexUsed(partition: Partition, a: map<Text, Partition>, ids: seq<Text>, rows: seq<Assignment>, i: nat)
    ensures i in Elems(Indices(Included(partition, a, ids, rows))) <==>
            i in Selected(partition, a, ids) && exists r :: r in rows && r.index == i
  {
    var inc := Included(partition, a, ids, rows);
    if i in Elems(Indices(inc)) {
      var k :| 0 <= k < |inc| && Indices(inc)[k] == i;
      assert inc[k] in inc;
    }
    if i in Selected(partition, a, ids) && exists r :: r in rows && r.index == i {
      var r :| r in rows && r.index == i;
      assert r in inc;
      var k :| 0 <= k < |inc| && inc[k] == r;
      assert Indices(inc)[k] == i;
    }
  }

  lemma SameSizeSubset<T>(a: set<T>, b: set<T>)
    requires a <= b && |a| == |b|
    ensures a == b
  {
    if a != b {
      var x :| x in b && x !in a;
      assert a <= b - {x};
      SubsetSmaller(a, b - {x});
    }
  }

  lemma {:induction false} SubsetSmaller<T>(a: set<T>, b: set<T>)
    requires a <= b
    ensures |a| <= |b|
  {
    if a != {} {
      var x :| x in a;
      SubsetSmaller(a - {x}, b - {x});
    }
  }
}
