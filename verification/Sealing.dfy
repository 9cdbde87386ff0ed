/** The sealed materialisation: the descriptor derived from its batches and the constructor
    that checks everything again. */
module Sealing {
  import opened Basics
  import opened Ordering
  import opened SplitPolicy
  import opened Materialize
  import opened ExemplarJoin

  /** What an exemplar batch keeps of its passports: their IDs and keys. */
  datatype ExemplarBatch = ExemplarBatch(partition: Partition, passports: seq<Passport>)

  /** The digests are modelled by what they hash. */
  datatype Descriptor = Descriptor(
    source: string, assignments: map<Text, Partition>,
    trainingCorridor: seq<Coordinate>, heldOutCorridor: seq<Coordinate>,
    trainingExemplars: seq<Key>, heldOutExemplars: seq<Key>, authoritative: seq<Key>)

  datatype Batches = Batches(
    split: Split, trainingCorridor: CorridorBatch, heldOutCorridor: CorridorBatch,
    trainingExemplars: ExemplarBatch, heldOutExemplars: ExemplarBatch, descriptor: Descriptor)

  function IdsOf(ps: seq<Passport>): seq<Text> { Map((p: Passport) => p.key.id, ps) }

  /** The passports of one side, in join order. */
  function Exemplars(side: Partition, s: Split, ps: seq<Passport>): ExemplarBatch {
    ExemplarBatch(side, OnSide(side, s.assignments, ps))
  }

  function KeysOfBatch(b: ExemplarBatch): seq<Key> { BatchKeys(b.passports) }

  /** _behavioral_materialization_descriptor_v1: None where a corridor batch is incomplete. */
  function Describe(s: Split, tc: CorridorBatch, hc: CorridorBatch, te: ExemplarBatch, he: ExemplarBatch,
                    authoritative: seq<Key>): Option<Descriptor>
  {
    var t, h := Coordinates(tc), Coordinates(hc);
    if t.None? || h.None? then None
    else Some(Descriptor(s.source, s.assignments, t.value, h.value, KeysOfBatch(te), KeysOfBatch(he), authoritative))
  }

  /** _validate_partition_batches */
  ghost predicate PartitionsValid(b: Batches) {
    var training, heldOut := Members(b.split.order, b.split.assignments, Training), Members(b.split.order, b.split.assignments, HeldOut);
    var t, h := KeysOfBatch(b.trainingExemplars), KeysOfBatch(b.heldOutExemplars);
    && b.trainingCorridor.partition == b.trainingExemplars.partition == Training
    && b.heldOutCorridor.partition == b.heldOutExemplars.partition == HeldOut
    && Elems(b.trainingCorridor.exampleIds) == Elems(training) && Elems(b.heldOutCorridor.exampleIds) == Elems(heldOut)
    && Elems(IdsOf(b.trainingExemplars.passports)) <= Elems(training)
    && Elems(IdsOf(b.heldOutExemplars.passports)) <= Elems(heldOut)
    && |Elems(t + h)| == |t + h|
    && (forall k | k in b.descriptor.authoritative :: k.id in b.split.assignments)
    && t == ExpectedKeys(Training, b.split.assignments, b.descriptor.authoritative)
    && h == ExpectedKeys(HeldOut, b.split.assignments, b.descriptor.authoritative)
  }

  /** BehavioralBatchesV1.__post_init__ raises exactly when this is false. */
  ghost predicate Accepted(b: Batches) {
    && PartitionsValid(b)
    && Describe(b.split, b.trainingCorridor, b.heldOutCorridor, b.trainingExemplars, b.heldOutExemplars,
                b.descriptor.authoritative) == Some(b.descriptor)
  }

  /** The end of materialize_behavioral_batches_v1: None where it raises. */
  ghost function Seal(s: Split, tc: CorridorBatch, hc: CorridorBatch, te: ExemplarBatch, he: ExemplarBatch,
                      authoritative: seq<Key>): Option<Batches>
  {
    match Describe(s, tc, hc, te, he, authoritative)
    case None => None
    case Some(d) =>
      var b := Batches(s, tc, hc, te, he, d);
      if Accepted(b) then Some(b) else None
  }

  /** Everything up to the corridor batches has succeeded. */
  ghost predicate Prepared(source: string, ids: seq<Text>, inputIds: seq<Row>, mask: seq<Row>, rows: seq<Assignment>,
                           ps: seq<Passport>, s: Split, tc: CorridorBatch, hc: CorridorBatch)
  {
    && |inputIds| == |mask| == |ids|
    && Checks(source, ids, IdsOf(ps)).None? && IsSplit(source, ids, IdsOf(ps), s)
    && MakeCorridorBatch(Training, s.assignments, ids, inputIds, mask, rows) == Ok(tc)
    && MakeCorridorBatch(HeldOut, s.assignments, ids, inputIds, mask, rows) == Ok(hc)
  }

  ghost predicate HasRow(rows: seq<Assignment>, i: nat) { exists r :: r in rows && r.index == i }

  ghost predicate EveryExampleAssigned(ids: seq<Text>, rows: seq<Assignment>) {
    forall i: nat | i < |ids| :: HasRow(rows, i)
  }

  // ---- the split ----

  /** The split assigns exactly the registry's examples, and each side lists its own. */
  ghost predicate Covers(s: Split, ids: seq<Text>) {
    && (forall id :: id in s.assignments <==> id in ids)
    && (forall id, side :: id in Members(s.order, s.assignments, side) <==> id in s.assignments && s.assignments[id] == side)
  }

  lemma SplitCovers(source: string, ids: seq<Text>, exemplarIds: seq<Text>, s: Split)
    requires Checks(source, ids, exemplarIds).None? && IsSplit(source, ids, exemplarIds, s)
    ensures Covers(s, ids)
  {
    var first, last := Pins(source, ids, exemplarIds, s);
    assert multiset(s.order) == multiset(ids);
    OrderCovers(s, ids);
  }

  lemma OrderCovers(s: Split, ids: seq<Text>)
    requires multiset(s.order) == multiset(ids) && s.assignments.Keys == Elems(s.order)
    ensures Covers(s, ids)
  {
    forall id ensures id in s.assignments <==> id in ids {
      assert id in s.assignments <==> id in Elems(s.order);
      assert id in s.order <==> id in multiset(s.order);
      assert id in ids <==> id in multiset(ids);
    }
    forall id, side
      ensures id in Members(s.order, s.assignments, side) <==> id in s.assignments && s.assignments[id] == side
    {
      MemberOf(s.order, s.assignments, side, id);
      assert id in s.assignments <==> id in Elems(s.order);
    }
  }

  // ---- the corridor batches ----

  /** A corridor batch's IDs are the partition's. */
  lemma CorridorCovers(side: Partition, a: map<Text, Partition>, ids: seq<Text>, inputIds: seq<Row>, mask: seq<Row>,
                       rows: seq<Assignment>, b: CorridorBatch, id: Text)
    requires |inputIds| == |mask| == |ids| && MakeCorridorBatch(side, a, ids, inputIds, mask, rows) == Ok(b)
    ensures b.partition == side && (id in b.exampleIds <==> id in ids && id in a && a[id] == side)
  {
    PickedOfSide(side, a, ids, id);
  }

  lemma PickedOfSide(side: Partition, a: map<Text, Partition>, ids: seq<Text>, id: Text)
    ensures forall i | i in Selected(side, a, ids) :: i < |ids|
    ensures id in Pick(ids, Selected(side, a, ids)) <==> id in ids && id in a && a[id] == side
  {
    SelectedOk(side, a, ids);
    PickedIff(ids, Selected(side, a, ids), id);
  }

  lemma PickedIff(ids: seq<Text>, sel: seq<nat>, id: Text)
    requires forall i | i in sel :: i < |ids|
    ensures id in Pick(ids, sel) <==> exists i :: i in sel && ids[i] == id
  {
    var picked := Pick(ids, sel);
    if id in picked {
      var k :| 0 <= k < |sel| && picked[k] == id;
      assert sel[k] in sel;
    }
    if i :| i in sel && ids[i] == id {
      var k :| 0 <= k < |sel| && sel[k] == i;
      assert picked[k] == ids[i];
    }
  }

  lemma CorridorIdsAgree(side: Partition, ids: seq<Text>, inputIds: seq<Row>, mask: seq<Row>,
                         rows: seq<Assignment>, s: Split, b: CorridorBatch)
    requires Covers(s, ids) && |inputIds| == |mask| == |ids|
    requires MakeCorridorBatch(side, s.assignments, ids, inputIds, mask, rows) == Ok(b)
    ensures b.partition == side && Elems(b.exampleIds) == Elems(Members(s.order, s.assignments, side))
  {
    forall id ensures b.partition == side && (id in b.exampleIds <==> id in Members(s.order, s.assignments, side)) {
      CorridorCovers(side, s.assignments, ids, inputIds, mask, rows, b, id);
    }
    SameElems(b.exampleIds, Members(s.order, s.assignments, side));
  }

  lemma SameElems(a: seq<Text>, b: seq<Text>)
    requires forall id :: id in a <==> id in b
    ensures Elems(a) == Elems(b)
  {
  }

  lemma SealedIffAssigned(ids: seq<Text>, inputIds: seq<Row>, mask: seq<Row>, rows: seq<Assignment>,
                          s: Split, tc: CorridorBatch, hc: CorridorBatch)
    requires Covers(s, ids) && |inputIds| == |mask| == |ids|
    requires MakeCorridorBatch(Training, s.assignments, ids, inputIds, mask, rows) == Ok(tc)
    requires MakeCorridorBatch(HeldOut, s.assignments, ids, inputIds, mask, rows) == Ok(hc)
    ensures Sealed(tc) && Sealed(hc) <==> EveryExampleAssigned(ids, rows)
  {
    SideSealed(Training, ids, inputIds, mask, rows, s, tc);
    SideSealed(HeldOut, ids, inputIds, mask, rows, s, hc);
    if Sealed(tc) && Sealed(hc) {
      forall i: nat | i < |ids| ensures HasRow(rows, i) { assert ids[i] in ids; }
    }
  }

  lemma SideSealed(side: Partition, ids: seq<Text>, inputIds: seq<Row>, mask: seq<Row>, rows: seq<Assignment>,
                   s: Split, b: CorridorBatch)
    requires Covers(s, ids) && |inputIds| == |mask| == |ids|
    requires MakeCorridorBatch(side, s.assignments, ids, inputIds, mask, rows) == Ok(b)
    ensures Sealed(b) <==> forall i: nat | i < |ids| && ids[i] in s.assignments && s.assignments[ids[i]] == side :: HasRow(rows, i)
  {
    SealsIffCovered(side, s.assignments, ids, inputIds, mask, rows);
    SelectedOk(side, s.assignments, ids);
    var sel := Selected(side, s.assignments, ids);
    assert (forall i | i in sel :: HasRow(rows, i)) <==> forall i | i in sel :: exists r :: r in rows && r.index == i;
  }

  // ---- the exemplar batches ----

  lemma {:induction false} InIds(ps: seq<Passport>, id: Text)
    ensures id in IdsOf(ps) <==> exists p :: p in ps && p.key.id == id
  {
    if id in IdsOf(ps) {
      var k :| 0 <= k < |ps| && IdsOf(ps)[k] == id;
      assert ps[k] in ps;
    }
    if p :| p in ps && p.key.id == id {
      var k :| 0 <= k < |ps| && ps[k] == p;
      assert IdsOf(ps)[k] == id;
    }
  }

  lemma ExemplarIdsInside(side: Partition, ids: seq<Text>, ps: seq<Passport>, s: Split)
    requires Covers(s, ids)
    ensures Elems(IdsOf(OnSide(side, s.assignments, ps))) <= Elems(Members(s.order, s.assignments, side))
  {
    forall id | id in IdsOf(OnSide(side, s.assignments, ps)) ensures id in Members(s.order, s.assignments, side) {
      InIds(OnSide(side, s.assignments, ps), id);
    }
  }

  /** No exemplar partition is ever empty: the split pins an exemplar to each side. */
  lemma ExemplarsOnBothSides(source: string, ids: seq<Text>, ps: seq<Passport>, s: Split)
    requires Checks(source, ids, IdsOf(ps)).None? && IsSplit(source, ids, IdsOf(ps), s)
    ensures OnSide(Training, s.assignments, ps) != [] && OnSide(HeldOut, s.assignments, ps) != []
  {
    var first, last := PinnedSides(source, ids, IdsOf(ps), s);
    SomeoneOnSide(Training, s, ps, first);
    SomeoneOnSide(HeldOut, s, ps, last);
  }

  lemma PinnedSides(source: string, ids: seq<Text>, exemplarIds: seq<Text>, s: Split) returns (first: Text, last: Text)
    requires Checks(source, ids, exemplarIds).None? && IsSplit(source, ids, exemplarIds, s)
    ensures first in exemplarIds && first in Members(s.order, s.assignments, Training)
    ensures last in exemplarIds && last in Members(s.order, s.assignments, HeldOut)
  {
    SplitHasExemplars(source, ids, exemplarIds, s);
    var xs := CanonicalIds(exemplarIds);
    first, last := xs[0], xs[|xs| - 1];
  }

  lemma SomeoneOnSide(side: Partition, s: Split, ps: seq<Passport>, id: Text)
    requires id in IdsOf(ps) && id in Members(s.order, s.assignments, side)
    ensures OnSide(side, s.assignments, ps) != []
  {
    MemberOf(s.order, s.assignments, side, id);
    InIds(ps, id);
    var p :| p in ps && p.key.id == id;
    assert p in OnSide(side, s.assignments, ps);
  }

  lemma KeyIdsAssigned(ids: seq<Text>, ps: seq<Passport>, s: Split)
    requires Covers(s, ids) && forall id | id in IdsOf(ps) :: id in ids
    ensures forall k | k in KeysOf(ps) :: k.id in s.assignments
  {
    forall k | k in KeysOf(ps) ensures k.id in s.assignments {
      var i :| 0 <= i < |ps| && KeysOf(ps)[i] == k;
      assert IdsOf(ps)[i] == k.id && k.id in IdsOf(ps);
    }
  }

  // ---- the constructor ----

  /** The exemplar half of the constructor's checks. */
  lemma ExemplarChecksPass(ids: seq<Text>, passports: seq<Passport>, payloads: seq<Payload>, s: Split)
    requires Covers(s, ids) && Join(passports, payloads, ids).Ok?
    ensures var ps := Join(passports, payloads, ids).value.0;
            var t, h := BatchKeys(OnSide(Training, s.assignments, ps)), BatchKeys(OnSide(HeldOut, s.assignments, ps));
            && t == ExpectedKeys(Training, s.assignments, KeysOf(ps)) && h == ExpectedKeys(HeldOut, s.assignments, KeysOf(ps))
            && |Elems(t + h)| == |t + h|
  {
    ExemplarsSeal(s.assignments, passports, payloads, ids);
    var ps := Join(passports, payloads, ids).value.0;
    DistinctCard(BatchKeys(OnSide(Training, s.assignments, ps)) + BatchKeys(OnSide(HeldOut, s.assignments, ps)));
  }

  lemma ExemplarsKnown(source: string, ids: seq<Text>, exemplarIds: seq<Text>)
    requires Checks(source, ids, exemplarIds).None?
    ensures forall id | id in exemplarIds :: id in ids
  {
  }

  /** Whatever passes the derivation of the descriptor passes the constructor. */
  lemma ConstructorAccepts(ids: seq<Text>, inputIds: seq<Row>, mask: seq<Row>, rows: seq<Assignment>,
                           passports: seq<Passport>, payloads: seq<Payload>, s: Split, tc: CorridorBatch, hc: CorridorBatch, d: Descriptor)
    requires Covers(s, ids) && |inputIds| == |mask| == |ids| && Join(passports, payloads, ids).Ok?
    requires MakeCorridorBatch(Training, s.assignments, ids, inputIds, mask, rows) == Ok(tc)
    requires MakeCorridorBatch(HeldOut, s.assignments, ids, inputIds, mask, rows) == Ok(hc)
    requires var ps := Join(passports, payloads, ids).value.0;
             d.authoritative == KeysOf(ps) && forall id | id in IdsOf(ps) :: id in ids
    ensures var ps := Join(passports, payloads, ids).value.0;
            PartitionsValid(Batches(s, tc, hc, Exemplars(Training, s, ps),
                                    Exemplars(HeldOut, s, ps), d))
  {
    var ps := Join(passports, payloads, ids).value.0;
    ExemplarChecksPass(ids, passports, payloads, s);
    CorridorIdsAgree(Training, ids, inputIds, mask, rows, s, tc);
    CorridorIdsAgree(HeldOut, ids, inputIds, mask, rows, s, hc);
    ExemplarIdsInside(Training, ids, ps, s);
    ExemplarIdsInside(HeldOut, ids, ps, s);
    KeyIdsAssigned(ids, ps, s);
  }

  /** A materialisation whose parts were built seals if and only if every example of the
      registry has an assignment row; the constructor's own checks never reject. */
  lemma SealsIffEveryExampleAssigned(source: string, ids: seq<Text>, inputIds: seq<Row>, mask: seq<Row>, rows: seq<Assignment>,
                                     passports: seq<Passport>, payloads: seq<Payload>, s: Split, tc: CorridorBatch, hc: CorridorBatch)
    requires Join(passports, payloads, ids).Ok?
    requires Prepared(source, ids, inputIds, mask, rows, Join(passports, payloads, ids).value.0, s, tc, hc)
    ensures var ps := Join(passports, payloads, ids).value.0;
            Seal(s, tc, hc, Exemplars(Training, s, ps),
                 Exemplars(HeldOut, s, ps), KeysOf(ps)).Some?
            <==> EveryExampleAssigned(ids, rows)
  {
    var ps := Join(passports, payloads, ids).value.0;
    SplitCovers(source, ids, IdsOf(ps), s);
    ExemplarsKnown(source, ids, IdsOf(ps));
    SealedIffAssigned(ids, inputIds, mask, rows, s, tc, hc);
    CoveredSealsIffSealed(ids, inputIds, mask, rows, passports, payloads, s, tc, hc);
  }

  lemma DescribedIffSealed(s: Split, tc: CorridorBatch, hc: CorridorBatch, te: ExemplarBatch, he: ExemplarBatch, authoritative: seq<Key>)
    ensures Describe(s, tc, hc, te, he, authoritative).Some? <==> Sealed(tc) && Sealed(hc)
    ensures Describe(s, tc, hc, te, he, authoritative).Some? ==>
              Describe(s, tc, hc, te, he, authoritative).value.authoritative == authoritative
  {
  }

  lemma SealedIfValid(s: Split, tc: CorridorBatch, hc: CorridorBatch, te: ExemplarBatch, he: ExemplarBatch, authoritative: seq<Key>)
    requires forall d | Describe(s, tc, hc, te, he, authoritative) == Some(d) :: PartitionsValid(Batches(s, tc, hc, te, he, d))
    ensures Seal(s, tc, hc, te, he, authoritative).Some? <==> Describe(s, tc, hc, te, he, authoritative).Some?
  {
    DescribedIffSealed(s, tc, hc, te, he, authoritative);
  }

  lemma CoveredSealsIffSealed(ids: seq<Text>, inputIds: seq<Row>, mask: seq<Row>, rows: seq<Assignment>,
                                passports: seq<Passport>, payloads: seq<Payload>, s: Split, tc: CorridorBatch, hc: CorridorBatch)
    requires Covers(s, ids) && |inputIds| == |mask| == |ids| && Join(passports, payloads, ids).Ok?
    requires MakeCorridorBatch(Training, s.assignments, ids, inputIds, mask, rows) == Ok(tc)
    requires MakeCorridorBatch(HeldOut, s.assignments, ids, inputIds, mask, rows) == Ok(hc)
    requires var ps := Join(passports, payloads, ids).value.0; forall id | id in IdsOf(ps) :: id in ids
    ensures var ps := Join(passports, payloads, ids).value.0;
            Seal(s, tc, hc, Exemplars(Training, s, ps), Exemplars(HeldOut, s, ps), KeysOf(ps)).Some? <==> Sealed(tc) && Sealed(hc)
  {
    var ps := Join(passports, payloads, ids).value.0;
    var te, he := Exemplars(Training, s, ps), Exemplars(HeldOut, s, ps);
    DescribedIffSealed(s, tc, hc, te, he, KeysOf(ps));
    forall d | Describe(s, tc, hc, te, he, KeysOf(ps)) == Some(d) ensures PartitionsValid(Batches(s, tc, hc, te, he, d)) {
      ConstructorAccepts(ids, inputIds, mask, rows, passports, payloads, s, tc, hc, d);
    }
    SealedIfValid(s, tc, hc, te, he, KeysOf(ps));
  }

  // ---- from the split and the join to the sealed materialisation ----

  /** _exemplar_batch: None where the side is empty, a position is outside the row, or a sparse
      target is rejected. */
  function MakeExemplarBatch(side: Partition, s: Split, ps: seq<Passport>, qs: seq<Payload>, width: nat,
                             sparse: string -> bool): Option<ExemplarBatch>
    requires |ps| == |qs|
  {
    var selected := OnSide(side, s.assignments, ps);
    if selected == [] || (exists p :: p in selected && !(0 <= p.key.position < width)) then None
    else if exists i :: 0 <= i < |ps| && ps[i] in selected && !sparse(qs[i].content) then None
    else Some(ExemplarBatch(side, selected))
  }

  /** The tail of materialize_behavioral_batches_v1: None where it raises. */
  ghost function Materialise(ids: seq<Text>, inputIds: seq<Row>, mask: seq<Row>, rows: seq<Assignment>, s: Split,
                             ps: seq<Passport>, qs: seq<Payload>, width: nat, sparse: string -> bool): Option<Batches>
    requires |inputIds| == |mask| == |ids| && |ps| == |qs|
  {
    match MakeCorridorBatch(Training, s.assignments, ids, inputIds, mask, rows)
    case Err(_) => None
    case Ok(tc) =>
      match MakeCorridorBatch(HeldOut, s.assignments, ids, inputIds, mask, rows)
      case Err(_) => None
      case Ok(hc) =>
        var te, he := MakeExemplarBatch(Training, s, ps, qs, width, sparse), MakeExemplarBatch(HeldOut, s, ps, qs, width, sparse);
        if te.None? || he.None? then None else Seal(s, tc, hc, te.value, he.value, KeysOf(ps))
  }

  /** The exemplar's position is in its row and its sparse target is accepted. */
  predicate FitsAt(ps: seq<Passport>, qs: seq<Payload>, width: nat, sparse: string -> bool, i: int)
    requires 0 <= i < |ps| == |qs|
  {
    0 <= ps[i].key.position < width && sparse(qs[i].content)
  }

  ghost predicate ExemplarsFit(ps: seq<Passport>, qs: seq<Payload>, width: nat, sparse: string -> bool)
    requires |ps| == |qs|
  {
    forall i | 0 <= i < |ps| :: FitsAt(ps, qs, width, sparse, i)
  }

  lemma BatchExact(side: Partition, s: Split, ps: seq<Passport>, qs: seq<Payload>, width: nat, sparse: string -> bool)
    requires |ps| == |qs| && OnSide(side, s.assignments, ps) != []
    ensures var b, selected := MakeExemplarBatch(side, s, ps, qs, width, sparse), OnSide(side, s.assignments, ps);
            && (b.Some? <==> forall i | 0 <= i < |ps| && ps[i] in selected :: FitsAt(ps, qs, width, sparse, i))
            && (b.Some? ==> b.value == Exemplars(side, s, ps))
  {
    var selected := OnSide(side, s.assignments, ps);
    forall p | p in selected ensures exists i :: 0 <= i < |ps| && ps[i] == p { assert p in ps; }
  }

  lemma EitherSide(ids: seq<Text>, ps: seq<Passport>, s: Split, i: int)
    requires Covers(s, ids) && 0 <= i < |ps| && forall id | id in IdsOf(ps) :: id in ids
    ensures ps[i] in OnSide(Training, s.assignments, ps) || ps[i] in OnSide(HeldOut, s.assignments, ps)
  {
    assert IdsOf(ps)[i] == ps[i].key.id && ps[i].key.id in ids;
  }

  lemma BatchesIffFit(source: string, ids: seq<Text>, ps: seq<Passport>, qs: seq<Payload>, s: Split, width: nat, sparse: string -> bool)
    requires Checks(source, ids, IdsOf(ps)).None? && IsSplit(source, ids, IdsOf(ps), s) && |ps| == |qs|
    ensures var t, h := MakeExemplarBatch(Training, s, ps, qs, width, sparse), MakeExemplarBatch(HeldOut, s, ps, qs, width, sparse);
            && (t.Some? && h.Some? <==> ExemplarsFit(ps, qs, width, sparse))
            && (t.Some? ==> t.value == Exemplars(Training, s, ps)) && (h.Some? ==> h.value == Exemplars(HeldOut, s, ps))
  {
    ExemplarsOnBothSides(source, ids, ps, s);
    BatchExact(Training, s, ps, qs, width, sparse);
    BatchExact(HeldOut, s, ps, qs, width, sparse);
    SplitCovers(source, ids, IdsOf(ps), s);
    ExemplarsKnown(source, ids, IdsOf(ps));
    forall i | 0 <= i < |ps|
      ensures ps[i] in OnSide(Training, s.assignments, ps) || ps[i] in OnSide(HeldOut, s.assignments, ps)
    {
      EitherSide(ids, ps, s, i);
    }
  }

  /** When every example has a row both corridor batches exist. */
  lemma CorridorsExist(source: string, ids: seq<Text>, inputIds: seq<Row>, mask: seq<Row>, rows: seq<Assignment>,
                       exemplarIds: seq<Text>, s: Split, side: Partition)
    requires Checks(source, ids, exemplarIds).None? && IsSplit(source, ids, exemplarIds, s)
    requires |inputIds| == |mask| == |ids| && EveryExampleAssigned(ids, rows)
    ensures MakeCorridorBatch(side, s.assignments, ids, inputIds, mask, rows).Ok?
  {
    var i := SomeoneSelected(source, ids, exemplarIds, s, side);
    SelectedOk(side, s.assignments, ids);
    assert HasRow(rows, i);
    var r :| r in rows && r.index == i;
    assert r in Included(side, s.assignments, ids, rows);
  }

  lemma SomeoneSelected(source: string, ids: seq<Text>, exemplarIds: seq<Text>, s: Split, side: Partition) returns (i: nat)
    requires Checks(source, ids, exemplarIds).None? && IsSplit(source, ids, exemplarIds, s)
    ensures i < |ids| && i in Selected(side, s.assignments, ids)
  {
    var first, last := PinnedSides(source, ids, exemplarIds, s);
    var id := if side == Training then first else last;
    SplitCovers(source, ids, exemplarIds, s);
    MemberOf(s.order, s.assignments, side, id);
    i :| 0 <= i < |ids| && ids[i] == id;
    SelectedOk(side, s.assignments, ids);
  }

  lemma JoinedAlike(passports: seq<Passport>, payloads: seq<Payload>, ids: seq<Text>)
    requires Join(passports, payloads, ids).Ok?
    ensures |Join(passports, payloads, ids).value.0| == |Join(passports, payloads, ids).value.1|
  {
    JoinIsBijection(passports, payloads, ids);
    var (ps, qs) := Join(passports, payloads, ids).value;
    assert |KeysOf(ps)| == |ps| && |KeysOf(qs)| == |qs|;
  }

  /** Once split and joined, everything materialises and seals if and only if every example
      has an assignment row and every exemplar fits. */
  lemma MaterialisesExactly(source: string, ids: seq<Text>, inputIds: seq<Row>, mask: seq<Row>, rows: seq<Assignment>,
                            passports: seq<Passport>, payloads: seq<Payload>, s: Split, width: nat, sparse: string -> bool)
    requires Join(passports, payloads, ids).Ok? && |inputIds| == |mask| == |ids|
    requires var ps := Join(passports, payloads, ids).value.0; Checks(source, ids, IdsOf(ps)).None? && IsSplit(source, ids, IdsOf(ps), s)
    ensures var (ps, qs) := Join(passports, payloads, ids).value;
            |ps| == |qs| &&
            (Materialise(ids, inputIds, mask, rows, s, ps, qs, width, sparse).Some? <==>
             EveryExampleAssigned(ids, rows) && ExemplarsFit(ps, qs, width, sparse))
  {
    var (ps, qs) := Join(passports, payloads, ids).value;
    JoinedAlike(passports, payloads, ids);
    BatchesIffFit(source, ids, ps, qs, s, width, sparse);
    CorridorsSealIff(source, ids, inputIds, mask, rows, passports, payloads, s);
    StepByStep(ids, inputIds, mask, rows, s, ps, qs, width, sparse);
  }

  lemma CorridorsSealIff(source: string, ids: seq<Text>, inputIds: seq<Row>, mask: seq<Row>, rows: seq<Assignment>,
                         passports: seq<Passport>, payloads: seq<Payload>, s: Split)
    requires Join(passports, payloads, ids).Ok? && |inputIds| == |mask| == |ids|
    requires var ps := Join(passports, payloads, ids).value.0; Checks(source, ids, IdsOf(ps)).None? && IsSplit(source, ids, IdsOf(ps), s)
    ensures CorridorsSeal(ids, inputIds, mask, rows, s, Join(passports, payloads, ids).value.0) <==> EveryExampleAssigned(ids, rows)
  {
    var ps := Join(passports, payloads, ids).value.0;
    var t := MakeCorridorBatch(Training, s.assignments, ids, inputIds, mask, rows);
    var h := MakeCorridorBatch(HeldOut, s.assignments, ids, inputIds, mask, rows);
    if EveryExampleAssigned(ids, rows) {
      CorridorsExist(source, ids, inputIds, mask, rows, IdsOf(ps), s, Training);
      CorridorsExist(source, ids, inputIds, mask, rows, IdsOf(ps), s, HeldOut);
    }
    if t.Ok? && h.Ok? {
      SealsIffEveryExampleAssigned(source, ids, inputIds, mask, rows, passports, payloads, s, t.value, h.value);
    }
  }

  /** Both corridor batches exist and seal with the exemplars of ps. */
  ghost predicate CorridorsSeal(ids: seq<Text>, inputIds: seq<Row>, mask: seq<Row>, rows: seq<Assignment>, s: Split, ps: seq<Passport>)
    requires |inputIds| == |mask| == |ids|
  {
    var t := MakeCorridorBatch(Training, s.assignments, ids, inputIds, mask, rows);
    var h := MakeCorridorBatch(HeldOut, s.assignments, ids, inputIds, mask, rows);
    t.Ok? && h.Ok? && Seal(s, t.value, h.value, Exemplars(Training, s, ps), Exemplars(HeldOut, s, ps), KeysOf(ps)).Some?
  }

  lemma StepByStep(ids: seq<Text>, inputIds: seq<Row>, mask: seq<Row>, rows: seq<Assignment>, s: Split,
                   ps: seq<Passport>, qs: seq<Payload>, width: nat, sparse: string -> bool)
    requires |inputIds| == |mask| == |ids| && |ps| == |qs|
    requires var t, h := MakeExemplarBatch(Training, s, ps, qs, width, sparse), MakeExemplarBatch(HeldOut, s, ps, qs, width, sparse);
             (t.Some? ==> t.value == Exemplars(Training, s, ps)) && (h.Some? ==> h.value == Exemplars(HeldOut, s, ps))
    ensures Materialise(ids, inputIds, mask, rows, s, ps, qs, width, sparse).Some? <==>
            && MakeExemplarBatch(Training, s, ps, qs, width, sparse).Some?
            && MakeExemplarBatch(HeldOut, s, ps, qs, width, sparse).Some?
            && CorridorsSeal(ids, inputIds, mask, rows, s, ps)
  {
  }

  // ---- what the constructor rejects ----

  ghost predicate HasKey(ps: seq<Passport>, k: Key) { exists p :: p in ps && p.key == k }

  /** The batch's example IDs are those of its side. */
  ghost predicate CoversSide(ids: seq<Text>, side: Partition, a: map<Text, Partition>) {
    forall id :: id in ids <==> id in a && a[id] == side
  }

  /** The exemplars are of this side, and their keys are the authoritative keys of the side,
      which stand there in ascending order. */
  ghost predicate ExemplarsOfSide(ps: seq<Passport>, side: Partition, a: map<Text, Partition>, authoritative: seq<Key>) {
    && (forall p | p in ps :: p.key.id in a && a[p.key.id] == side)
    && (forall k :: HasKey(ps, k) <==> k in authoritative && k.id in a && a[k.id] == side)
    && StrictlySorted(KeyLt, Filter(OfSide(side, a), authoritative))
  }

  function OfSide(side: Partition, a: map<Text, Partition>): Key -> bool { (k: Key) => k.id in a && a[k.id] == side }

  lemma KeysHeld(ps: seq<Passport>, k: Key)
    ensures k in KeysOf(ps) <==> HasKey(ps, k)
  {
    if k in KeysOf(ps) {
      var i :| 0 <= i < |ps| && KeysOf(ps)[i] == k;
      assert ps[i] in ps;
    }
    if p :| p in ps && p.key == k {
      var i :| 0 <= i < |ps| && ps[i] == p;
      assert KeysOf(ps)[i] == k;
    }
  }

  lemma BatchKeysAre(ps: seq<Passport>)
    requires Distinct(KeysOf(ps))
    ensures StrictlySorted(KeyLt, BatchKeys(ps)) && forall k :: k in BatchKeys(ps) <==> HasKey(ps, k)
  {
    KeyOrder();
    SortIsAscending(KeyLt, KeysOf(ps));
    forall k ensures k in BatchKeys(ps) <==> HasKey(ps, k) {
      KeysHeld(ps, k);
      assert k in BatchKeys(ps) <==> k in multiset(BatchKeys(ps));
      assert k in KeysOf(ps) <==> k in multiset(KeysOf(ps));
    }
  }

  lemma SameAscendingKeys(t: seq<Key>, u: seq<Key>)
    requires StrictlySorted(KeyLt, t) && StrictlySorted(KeyLt, u) && forall k :: k in t <==> k in u
    ensures t == u
  {
    KeyOrder();
    AscendingUnique(KeyLt, t);
    AscendingUnique(KeyLt, u);
    assert Elems(t) == Elems(u);
  }

  lemma DistinctKeys(ps: seq<Passport>, qs: seq<Passport>)
    ensures |Elems(BatchKeys(ps) + BatchKeys(qs))| == |BatchKeys(ps) + BatchKeys(qs)| <==> Distinct(KeysOf(ps) + KeysOf(qs))
  {
    var sorted, keys := BatchKeys(ps) + BatchKeys(qs), KeysOf(ps) + KeysOf(qs);
    assert multiset(sorted) == multiset(keys);
    CardIffDistinct(sorted);
    if Distinct(sorted) { DistinctPermutes(sorted, keys); }
    if Distinct(keys) { DistinctPermutes(keys, sorted); }
  }

  lemma {:induction false} CardIffDistinct(s: seq<Key>)
    ensures |Elems(s)| == |s| <==> Distinct(s)
    ensures |Elems(s)| <= |s|
  {
    if s != [] {
      CardIffDistinct(s[1..]);
      assert s == [s[0]] + s[1..];
      assert Elems(s) == {s[0]} + Elems(s[1..]);
      if Distinct(s) { assert s[0] !in s[1..]; }
      if s[0] !in s[1..] && Distinct(s[1..]) {
        forall i, j | 0 <= i < j < |s| ensures s[i] != s[j] { assert s[j] == s[1..][j - 1] && (i > 0 ==> s[i] == s[1..][i - 1]); }
      }
    }
  }

  lemma IdsOfSide(ps: seq<Passport>, side: Partition, members: seq<Text>, a: map<Text, Partition>)
    requires forall id :: id in members <==> id in a && a[id] == side
    ensures Elems(IdsOf(ps)) <= Elems(members) <==> forall p | p in ps :: p.key.id in a && a[p.key.id] == side
  {
    if Elems(IdsOf(ps)) <= Elems(members) {
      forall p | p in ps ensures p.key.id in a && a[p.key.id] == side {
        InIds(ps, p.key.id);
        assert p.key.id in Elems(IdsOf(ps));
      }
    }
    if forall p | p in ps :: p.key.id in a && a[p.key.id] == side {
      forall id | id in Elems(IdsOf(ps)) ensures id in Elems(members) { InIds(ps, id); }
    }
  }

  /** For a split whose lists fit its assignments, the constructor's checks pass exactly when
      the batches carry their sides' labels, the corridor batches hold exactly their sides'
      examples, every authoritative key is assigned, no exemplar key occurs twice, and each
      side's exemplars are the authoritative ones of that side. */
  lemma ValidExactly(b: Batches)
    requires forall id, side :: id in Members(b.split.order, b.split.assignments, side) <==>
                                id in b.split.assignments && b.split.assignments[id] == side
    ensures PartitionsValid(b) <==>
            && b.trainingCorridor.partition == Training && b.heldOutCorridor.partition == HeldOut
            && b.trainingExemplars.partition == Training && b.heldOutExemplars.partition == HeldOut
            && CoversSide(b.trainingCorridor.exampleIds, Training, b.split.assignments)
            && CoversSide(b.heldOutCorridor.exampleIds, HeldOut, b.split.assignments)
            && (forall k | k in b.descriptor.authoritative :: k.id in b.split.assignments)
            && Distinct(KeysOf(b.trainingExemplars.passports) + KeysOf(b.heldOutExemplars.passports))
            && ExemplarsOfSide(b.trainingExemplars.passports, Training, b.split.assignments, b.descriptor.authoritative)
            && ExemplarsOfSide(b.heldOutExemplars.passports, HeldOut, b.split.assignments, b.descriptor.authoritative)
  {
    var te, he := b.trainingExemplars.passports, b.heldOutExemplars.passports;
    SideExact(Training, b.split, b.trainingCorridor.exampleIds, te, b.descriptor.authoritative);
    SideExact(HeldOut, b.split, b.heldOutCorridor.exampleIds, he, b.descriptor.authoritative);
    DistinctKeys(te, he);
    if Distinct(KeysOf(te) + KeysOf(he)) { BothDistinct(KeysOf(te), KeysOf(he)); }
  }

  lemma BothDistinct(x: seq<Key>, y: seq<Key>)
    requires Distinct(x + y)
    ensures Distinct(x) && Distinct(y)
  {
    var all := x + y;
    forall i, j | 0 <= i < j < |x| ensures x[i] != x[j] { assert all[i] != all[j]; }
    forall i, j | 0 <= i < j < |y| ensures y[i] != y[j] { assert all[|x| + i] != all[|x| + j]; }
  }

  /** The checks of one side, its exemplar keys being distinct. */
  lemma SideExact(side: Partition, s: Split, ids: seq<Text>, ps: seq<Passport>, authoritative: seq<Key>)
    requires forall id :: id in Members(s.order, s.assignments, side) <==> id in s.assignments && s.assignments[id] == side
    ensures Elems(ids) == Elems(Members(s.order, s.assignments, side)) <==> CoversSide(ids, side, s.assignments)
    ensures Distinct(KeysOf(ps)) ==>
              (Elems(IdsOf(ps)) <= Elems(Members(s.order, s.assignments, side))
               && BatchKeys(ps) == ExpectedKeys(side, s.assignments, authoritative)
               <==> ExemplarsOfSide(ps, side, s.assignments, authoritative))
  {
    var members := Members(s.order, s.assignments, side);
    IdsOfSide(ps, side, members, s.assignments);
    SameIds(ids, members);
    if Distinct(KeysOf(ps)) { KeysExact(side, s.assignments, ps, authoritative); }
  }

  /** Given that the exemplars are of the side. */
  lemma KeysExact(side: Partition, a: map<Text, Partition>, ps: seq<Passport>, authoritative: seq<Key>)
    requires Distinct(KeysOf(ps))
    ensures (forall p | p in ps :: p.key.id in a && a[p.key.id] == side) && BatchKeys(ps) == ExpectedKeys(side, a, authoritative)
            <==> ExemplarsOfSide(ps, side, a, authoritative)
  {
    if ExemplarsOfSide(ps, side, a, authoritative) { OfSideExpected(side, a, ps, authoritative); }
    if (forall p | p in ps :: p.key.id in a && a[p.key.id] == side) && BatchKeys(ps) == ExpectedKeys(side, a, authoritative) {
      ExpectedOfSide(side, a, ps, authoritative);
    }
  }

  lemma OfSideExpected(side: Partition, a: map<Text, Partition>, ps: seq<Passport>, authoritative: seq<Key>)
    requires Distinct(KeysOf(ps)) && ExemplarsOfSide(ps, side, a, authoritative)
    ensures BatchKeys(ps) == ExpectedKeys(side, a, authoritative)
  {
    KeysExpected(side, a, authoritative);
    BatchKeysAre(ps);
    forall k ensures k in BatchKeys(ps) <==> k in ExpectedKeys(side, a, authoritative) { assert k in BatchKeys(ps) <==> HasKey(ps, k); }
    SameAscendingKeys(BatchKeys(ps), ExpectedKeys(side, a, authoritative));
  }

  lemma ExpectedOfSide(side: Partition, a: map<Text, Partition>, ps: seq<Passport>, authoritative: seq<Key>)
    requires Distinct(KeysOf(ps)) && (forall p | p in ps :: p.key.id in a && a[p.key.id] == side)
    requires BatchKeys(ps) == ExpectedKeys(side, a, authoritative)
    ensures ExemplarsOfSide(ps, side, a, authoritative)
  {
    KeysExpected(side, a, authoritative);
    BatchKeysAre(ps);
    forall k ensures HasKey(ps, k) <==> k in authoritative && k.id in a && a[k.id] == side { assert k in BatchKeys(ps) <==> HasKey(ps, k); }
  }

  lemma SameIds(a: seq<Text>, b: seq<Text>)
    ensures Elems(a) == Elems(b) <==> forall id :: id in a <==> id in b
  {
    assert forall id :: (id in a <==> id in Elems(a)) && (id in b <==> id in Elems(b));
  }

  lemma KeysExpected(side: Partition, a: map<Text, Partition>, authoritative: seq<Key>)
    ensures ExpectedKeys(side, a, authoritative) == Filter(OfSide(side, a), authoritative)
    ensures forall k :: k in ExpectedKeys(side, a, authoritative) <==> k in authoritative && k.id in a && a[k.id] == side
  {
    FilterAgrees((k: Key) => k.id in a && a[k.id] == side, OfSide(side, a), authoritative);
  }

  // ---- what the sealed descriptor says ----

  /** ks are the keys of ps, ascending. */
  ghost predicate KeysListed(ps: seq<Passport>, ks: seq<Key>) {
    multiset(ks) == multiset(KeysOf(ps)) && forall i, j | 0 <= i < j < |ks| :: KeyBefore(ks[i], ks[j])
  }

  /** The descriptor of accepted batches names their split and lists each side's corridor
      coordinates and exemplar keys. */
  lemma DescriptorTells(b: Batches)
    requires Accepted(b)
    ensures b.descriptor.source == b.split.source && b.descriptor.assignments == b.split.assignments
    ensures Coordinates(b.trainingCorridor) == Some(b.descriptor.trainingCorridor)
    ensures Coordinates(b.heldOutCorridor) == Some(b.descriptor.heldOutCorridor)
    ensures KeysListed(b.trainingExemplars.passports, b.descriptor.trainingExemplars)
    ensures KeysListed(b.heldOutExemplars.passports, b.descriptor.heldOutExemplars)
  {
    var te, he := b.trainingExemplars.passports, b.heldOutExemplars.passports;
    DistinctKeys(te, he);
    BothDistinct(KeysOf(te), KeysOf(he));
    SortedKeysListed(te);
    SortedKeysListed(he);
  }

  lemma SortedKeysListed(ps: seq<Passport>)
    requires Distinct(KeysOf(ps))
    ensures KeysListed(ps, BatchKeys(ps))
  {
    var ks := BatchKeys(ps);
    KeyOrder();
    SortSorted(KeyLt, KeysOf(ps));
    DistinctPermutes(KeysOf(ps), ks);
    forall i, j | 0 <= i < j < |ks| ensures KeyBefore(ks[i], ks[j]) { KeyOrderTells(ks[i], ks[j]); }
  }
}
