/** Joining exemplar passports with payloads, partitioning them, and the sealed constructor's
    coverage checks. */
module ExemplarJoin {
  import opened Basics
  import opened Ordering
  import opened SplitPolicy

  /** (selected_example_id, selected_position, corridor_fingerprint_id) */
  datatype Key = Key(id: Text, position: int, fingerprint: Text)

  datatype Record<T> = Record(key: Key, content: T)

  /** What else a passport holds; plainPosition says its position is a plain integer. */
  datatype PassportData = PassportData(plainPosition: bool, fields: string)

  type Passport = Record<PassportData>

  type Payload = Record<string>

  datatype JoinError = IncompleteRecords | DoNotJoin | BadCoordinate

  /** The sort key: ID bytes, position, fingerprint bytes. */
  predicate KeyLt(a: Key, b: Key) {
    || TextLt(a.id, b.id)
    || (a.id == b.id && (a.position < b.position || (a.position == b.position && TextLt(a.fingerprint, b.fingerprint))))
  }

  lemma KeyOrder()
    ensures TotalOrder(KeyLt)
  {
    TextOrder();
    forall a, b, c | KeyLt(a, b) && KeyLt(b, c) ensures KeyLt(a, c) {}
    forall a, b | a != b ensures KeyLt(a, b) || KeyLt(b, a) {}
  }

  function KeysOf<T>(rs: seq<Record<T>>): seq<Key> { Map((r: Record<T>) => r.key, rs) }

  /** {key(item): item for item in rs}: a later record replaces an earlier one. */
  function ByKey<T>(rs: seq<Record<T>>): map<Key, Record<T>> {
    if rs == [] then map[] else ByKey(rs[..|rs| - 1])[rs[|rs| - 1].key := rs[|rs| - 1]]
  }

  /** tuple(m[k] for k in ks) */
  function Fetch<T>(m: map<Key, Record<T>>, ks: seq<Key>): (r: seq<Record<T>>)
    requires forall k | k in ks :: k in m
    ensures |r| == |ks| && forall i | 0 <= i < |ks| :: ks[i] in m && r[i] == m[ks[i]]
  {
    if ks == [] then []
    else
      assert ks[0] in ks && forall k | k in ks[1..] :: k in ks;
      [m[ks[0]]] + Fetch(m, ks[1..])
  }

  ghost function SortedKeys(m: set<Key>): (ks: seq<Key>)
    ensures StrictlySorted(KeyLt, ks) && Elems(ks) == m && forall k | k in ks :: k in m
  {
    KeyOrder();
    var ks := Ascending(KeyLt, m);
    assert forall k | k in ks :: k in Elems(ks);
    ks
  }

  predicate BadPassport(p: Passport, ids: seq<Text>) { p.key.id !in ids || !p.content.plainPosition }

  /** _join_exemplars: the dicts, the key comparison, the sort by key and the coordinate check. */
  ghost function Join(passports: seq<Passport>, payloads: seq<Payload>, ids: seq<Text>): Result<(seq<Passport>, seq<Payload>), JoinError> {
    var byPassport, byPayload := ByKey(passports), ByKey(payloads);
    if passports == [] || |passports| != |payloads| then Err(IncompleteRecords)
    else if |byPassport| != |passports| || byPassport.Keys != byPayload.Keys then Err(DoNotJoin)
    else
      var ordered := SortedKeys(byPassport.Keys);
      var ps, qs := Fetch(byPassport, ordered), Fetch(byPayload, ordered);
      if exists p :: p in ps && BadPassport(p, ids) then Err(BadCoordinate) else Ok((ps, qs))
  }

  // ---- the dicts ----

  lemma DistinctSnoc<T>(s: seq<T>, x: T)
    ensures Distinct(s + [x]) <==> Distinct(s) && x !in s
  {
    var all := s + [x];
    if Distinct(all) {
      forall i, j | 0 <= i < j < |s| ensures s[i] != s[j] { assert all[i] != all[j]; }
      forall i | 0 <= i < |s| ensures s[i] != x { assert all[i] != all[|s|]; }
    }
  }

  lemma AddedKey<T>(m: map<Key, Record<T>>, r: Record<T>)
    ensures m[r.key := r].Keys == m.Keys + {r.key}
    ensures |m[r.key := r]| == if r.key in m then |m| else |m| + 1
  {
    var m' := m[r.key := r];
    assert m'.Keys == m.Keys + {r.key};
    assert r.key in m ==> m'.Keys == m.Keys;
    assert |m'| == |m'.Keys| && |m| == |m.Keys|;
  }

  lemma {:induction false} ByKeyKeys<T>(rs: seq<Record<T>>)
    ensures ByKey(rs).Keys == Elems(KeysOf(rs))
    ensures |ByKey(rs)| <= |rs| && (|ByKey(rs)| == |rs| <==> Distinct(KeysOf(rs)))
  {
    if rs != [] {
      var front, last := rs[..|rs| - 1], rs[|rs| - 1];
      ByKeyKeys(front);
      AddedKey(ByKey(front), last);
      KeysSnoc(rs, front, last);
    }
  }

  lemma KeysSnoc<T>(rs: seq<Record<T>>, front: seq<Record<T>>, last: Record<T>)
    requires rs != [] && front == rs[..|rs| - 1] && last == rs[|rs| - 1]
    ensures Distinct(KeysOf(rs)) <==> Distinct(KeysOf(front)) && last.key !in Elems(KeysOf(front))
    ensures Elems(KeysOf(rs)) == Elems(KeysOf(front)) + {last.key}
  {
    DistinctSnoc(KeysOf(front), last.key);
    assert KeysOf(rs) == KeysOf(front) + [last.key];
    assert last.key in KeysOf(front) <==> last.key in Elems(KeysOf(front));
    assert Elems(KeysOf(front) + [last.key]) == Elems(KeysOf(front)) + {last.key};
  }

  lemma {:induction false} ByKeyValues<T>(rs: seq<Record<T>>)
    ensures forall k | k in ByKey(rs) :: ByKey(rs)[k] in rs && ByKey(rs)[k].key == k
  {
    if rs != [] {
      var front, last := rs[..|rs| - 1], rs[|rs| - 1];
      ByKeyValues(front);
      assert rs == front + [last];
    }
  }

  lemma SameRecord<T>(rs: seq<Record<T>>, a: Record<T>, b: Record<T>)
    requires Distinct(KeysOf(rs)) && a in rs && b in rs && a.key == b.key
    ensures a == b
  {
    var i :| 0 <= i < |rs| && rs[i] == a;
    var j :| 0 <= j < |rs| && rs[j] == b;
    assert KeysOf(rs)[i] == KeysOf(rs)[j];
  }

  lemma DistinctByKey<T>(rs: seq<Record<T>>)
    requires Distinct(KeysOf(rs))
    ensures Distinct(rs)
  {
    forall i, j | 0 <= i < j < |rs| ensures rs[i] != rs[j] { assert KeysOf(rs)[i] != KeysOf(rs)[j]; }
  }

  /** Fetching all keys in order rearranges the records. */
  lemma FetchRearranges<T>(rs: seq<Record<T>>, ks: seq<Key>)
    requires Distinct(KeysOf(rs)) && StrictlySorted(KeyLt, ks) && Elems(ks) == ByKey(rs).Keys
    requires forall k | k in ks :: k in ByKey(rs)
    ensures KeysOf(Fetch(ByKey(rs), ks)) == ks
    ensures multiset(Fetch(ByKey(rs), ks)) == multiset(rs)
    ensures forall r :: r in Fetch(ByKey(rs), ks) <==> r in rs
  {
    var out := Fetch(ByKey(rs), ks);
    ByKeyKeys(rs);
    ByKeyValues(rs);
    KeyOrder();
    StrictlySortedDistinct(KeyLt, ks);
    assert KeysOf(out) == ks;
    DistinctByKey(rs);
    DistinctByKey(out);
    Rearranged(rs, ks, out);
  }

  lemma Rearranged<T>(rs: seq<Record<T>>, ks: seq<Key>, out: seq<Record<T>>)
    requires Distinct(KeysOf(rs)) && Elems(ks) == Elems(KeysOf(rs)) && |out| == |ks| && Distinct(rs) && Distinct(out)
    requires forall i | 0 <= i < |ks| :: out[i] in rs && out[i].key == ks[i]
    ensures multiset(out) == multiset(rs) && forall r :: r in out <==> r in rs
  {
    forall r ensures r in out <==> r in rs { FetchedOnce(rs, ks, out, r); }
    assert Elems(out) == Elems(rs);
    DistinctSameElems(out, rs);
  }

  lemma FetchedOnce<T>(rs: seq<Record<T>>, ks: seq<Key>, out: seq<Record<T>>, r: Record<T>)
    requires Distinct(KeysOf(rs)) && Elems(ks) == Elems(KeysOf(rs)) && |out| == |ks|
    requires forall i | 0 <= i < |ks| :: out[i] in rs && out[i].key == ks[i]
    ensures r in out <==> r in rs
  {
    if r in rs {
      var a :| 0 <= a < |rs| && rs[a] == r;
      assert KeysOf(rs)[a] == r.key && r.key in Elems(KeysOf(rs));
      assert r.key in Elems(ks);
      var i :| 0 <= i < |ks| && ks[i] == r.key;
      SameRecord(rs, r, out[i]);
    }
  }

  /** The record lists can be joined. */
  ghost predicate Joinable(passports: seq<Passport>, payloads: seq<Payload>, ids: seq<Text>) {
    && passports != [] && |passports| == |payloads|
    && Distinct(KeysOf(passports)) && Distinct(KeysOf(payloads))
    && Elems(KeysOf(passports)) == Elems(KeysOf(payloads))
    && forall p | p in passports :: p.key.id in ids && p.content.plainPosition
  }

  lemma JoinChecks(passports: seq<Passport>, payloads: seq<Payload>)
    requires |passports| == |payloads|
    ensures |ByKey(passports)| == |passports| && ByKey(passports).Keys == ByKey(payloads).Keys <==>
            Distinct(KeysOf(passports)) && Distinct(KeysOf(payloads)) &&
            Elems(KeysOf(passports)) == Elems(KeysOf(payloads))
  {
    ByKeyKeys(passports);
    ByKeyKeys(payloads);
    assert |ByKey(passports).Keys| == |ByKey(passports)| && |ByKey(payloads).Keys| == |ByKey(payloads)|;
  }

  /** A successful join pairs every passport with the one payload of its key: both results
      are rearrangements of the inputs, in key order, with equal keys position by position.
      It succeeds exactly on lists that can be joined. */
  lemma JoinIsBijection(passports: seq<Passport>, payloads: seq<Payload>, ids: seq<Text>)
    ensures Join(passports, payloads, ids).Ok? <==> Joinable(passports, payloads, ids)
    ensures Join(passports, payloads, ids).Ok? ==>
              var (ps, qs) := Join(passports, payloads, ids).value;
              && multiset(ps) == multiset(passports) && multiset(qs) == multiset(payloads)
              && KeysOf(ps) == KeysOf(qs) && StrictlySorted(KeyLt, KeysOf(ps))
  {
    if passports != [] && |passports| == |payloads| {
      JoinChecks(passports, payloads);
      if Distinct(KeysOf(passports)) && Distinct(KeysOf(payloads)) && Elems(KeysOf(passports)) == Elems(KeysOf(payloads)) {
        JoinPairs(passports, payloads, ids);
      }
    }
  }

  /** a comes before b: by the bytes of the ID, then the position, then the bytes of the fingerprint. */
  ghost predicate KeyBefore(a: Key, b: Key) {
    || BytesBefore(a.id, b.id)
    || (a.id == b.id && a.position < b.position)
    || (a.id == b.id && a.position == b.position && BytesBefore(a.fingerprint, b.fingerprint))
  }

  /** Joined records stand in the order of their keys. */
  lemma JoinAscends(passports: seq<Passport>, payloads: seq<Payload>, ids: seq<Text>, i: nat, j: nat)
    requires Join(passports, payloads, ids).Ok? && i < j < |Join(passports, payloads, ids).value.0|
    ensures var (ps, qs) := Join(passports, payloads, ids).value;
            |qs| == |ps| && KeyBefore(ps[i].key, ps[j].key) && qs[i].key == ps[i].key
  {
    JoinIsBijection(passports, payloads, ids);
    var (ps, qs) := Join(passports, payloads, ids).value;
    assert KeysOf(ps)[i] == ps[i].key && KeysOf(ps)[j] == ps[j].key && KeysOf(qs)[i] == qs[i].key;
    KeyOrderTells(ps[i].key, ps[j].key);
  }

  lemma KeyOrderTells(a: Key, b: Key)
    ensures KeyLt(a, b) <==> KeyBefore(a, b)
  {
    TextOrderIsBytes(a.id, b.id);
    TextOrderIsBytes(a.fingerprint, b.fingerprint);
  }

  lemma JoinPairs(passports: seq<Passport>, payloads: seq<Payload>, ids: seq<Text>)
    requires passports != [] && |passports| == |payloads|
    requires |ByKey(passports)| == |passports| && ByKey(passports).Keys == ByKey(payloads).Keys
    requires Distinct(KeysOf(passports)) && Distinct(KeysOf(payloads))
    ensures Join(passports, payloads, ids).Ok? <==> forall p | p in passports :: !BadPassport(p, ids)
    ensures Join(passports, payloads, ids).Ok? ==>
              var (ps, qs) := Join(passports, payloads, ids).value;
              && multiset(ps) == multiset(passports) && multiset(qs) == multiset(payloads)
              && KeysOf(ps) == KeysOf(qs) && StrictlySorted(KeyLt, KeysOf(ps))
  {
    PairRearranges(passports, payloads, SortedKeys(ByKey(passports).Keys));
  }

  lemma PairRearranges(passports: seq<Passport>, payloads: seq<Payload>, ks: seq<Key>)
    requires Distinct(KeysOf(passports)) && Distinct(KeysOf(payloads)) && StrictlySorted(KeyLt, ks)
    requires Elems(ks) == ByKey(passports).Keys == ByKey(payloads).Keys
    requires forall k | k in ks :: k in ByKey(passports) && k in ByKey(payloads)
    ensures var ps, qs := Fetch(ByKey(passports), ks), Fetch(ByKey(payloads), ks);
            && multiset(ps) == multiset(passports) && multiset(qs) == multiset(payloads)
            && KeysOf(ps) == KeysOf(qs) == ks && (forall p :: p in ps <==> p in passports)
  {
    FetchRearranges(passports, ks);
    FetchRearranges(payloads, ks);
  }

  /** The result does not depend on the order of either list. */
  lemma JoinForgetsOrder(p1: seq<Passport>, q1: seq<Payload>, p2: seq<Passport>, q2: seq<Payload>, ids: seq<Text>)
    requires multiset(p1) == multiset(p2) && multiset(q1) == multiset(q2)
    requires Join(p1, q1, ids).Ok?
    ensures Join(p2, q2, ids) == Join(p1, q1, ids)
  {
    JoinIsBijection(p1, q1, ids);
    JoinIsBijection(p2, q2, ids);
    JoinablePermutes(p1, q1, p2, q2, ids);
    var (a1, b1) := Join(p1, q1, ids).value;
    var (a2, b2) := Join(p2, q2, ids).value;
    SortedRecordsEqual(a1, a2);
    SortedRecordsEqual(b1, b2);
  }

  lemma SortedRecordsEqual<T>(a: seq<Record<T>>, b: seq<Record<T>>)
    requires multiset(a) == multiset(b) && StrictlySorted(KeyLt, KeysOf(a)) && StrictlySorted(KeyLt, KeysOf(b))
    ensures a == b
  {
    KeyOrder();
    MapPermutes((r: Record<T>) => r.key, a, b);
    assert Elems(KeysOf(a)) == Elems(KeysOf(b)) by {
      forall k ensures k in Elems(KeysOf(a)) <==> k in Elems(KeysOf(b)) {
        assert k in multiset(KeysOf(a)) <==> k in multiset(KeysOf(b));
      }
    }
    AscendingUnique(KeyLt, KeysOf(a));
    AscendingUnique(KeyLt, KeysOf(b));
    StrictlySortedDistinct(KeyLt, KeysOf(a));
    assert |KeysOf(a)| == |a| && |KeysOf(b)| == |b|;
    forall i | 0 <= i < |a| ensures a[i] == b[i] {
      assert KeysOf(a)[i] == KeysOf(b)[i];
      assert b[i] in multiset(a) && b[i] in a && a[i] in a;
      SameRecord(a, a[i], b[i]);
    }
  }

  lemma JoinablePermutes(p1: seq<Passport>, q1: seq<Payload>, p2: seq<Passport>, q2: seq<Payload>, ids: seq<Text>)
    requires multiset(p1) == multiset(p2) && multiset(q1) == multiset(q2) && Joinable(p1, q1, ids)
    ensures Joinable(p2, q2, ids)
  {
    assert |multiset(p1)| == |p1| && |multiset(p2)| == |p2| && |multiset(q1)| == |q1| && |multiset(q2)| == |q2|;
    KeysPermute(p1, p2);
    KeysPermute(q1, q2);
    forall p | p in p2 ensures !BadPassport(p, ids) { assert p in multiset(p1) && p in p1; }
  }

  lemma KeysPermute<T>(a: seq<Record<T>>, b: seq<Record<T>>)
    requires multiset(a) == multiset(b) && Distinct(KeysOf(a))
    ensures Distinct(KeysOf(b)) && Elems(KeysOf(b)) == Elems(KeysOf(a))
  {
    MapPermutes((r: Record<T>) => r.key, a, b);
    var ka, kb := KeysOf(a), KeysOf(b);
    DistinctPermutes(ka, kb);
    forall k ensures k in Elems(ka) <==> k in Elems(kb) { assert k in multiset(ka) <==> k in multiset(kb); }
  }

  // ---- partitioning and sealing ----

  /** passports of an exemplar batch: the joined passports on one side, in join order. */
  function OnSide(side: Partition, a: map<Text, Partition>, ps: seq<Passport>): seq<Passport> {
    Filter((p: Passport) => p.key.id in a && a[p.key.id] == side, ps)
  }

  /** _passport_keys sorts the keys of the batch. */
  function BatchKeys(ps: seq<Passport>): seq<Key> { Sort(KeyLt, KeysOf(ps)) }

  /** What the constructor expects: the authoritative keys filtered by the split. */
  function ExpectedKeys(side: Partition, a: map<Text, Partition>, authoritative: seq<Key>): seq<Key> {
    Filter((k: Key) => k.id in a && a[k.id] == side, authoritative)
  }

  lemma SideKeys(side: Partition, a: map<Text, Partition>, ps: seq<Passport>)
    requires StrictlySorted(KeyLt, KeysOf(ps))
    ensures BatchKeys(OnSide(side, a, ps)) == ExpectedKeys(side, a, KeysOf(ps))
    ensures StrictlySorted(KeyLt, ExpectedKeys(side, a, KeysOf(ps)))
  {
    var onSide := (p: Passport) => p.key.id in a && a[p.key.id] == side;
    var keyOnSide := (k: Key) => k.id in a && a[k.id] == side;
    FilterMap((r: Passport) => r.key, onSide, keyOnSide, ps);
    FilterStrictlySorted(KeyLt, keyOnSide, KeysOf(ps));
    KeyOrder();
    StrictlySortedDistinct(KeyLt, ExpectedKeys(side, a, KeysOf(ps)));
    SortIdempotent(KeyLt, ExpectedKeys(side, a, KeysOf(ps)));
  }

  /** Every joined and partitioned exemplar list passes the sealed constructor's checks: keys
      are unique over both sides, and each side's sorted keys are the authoritative keys
      filtered by the split. The two sides are disjoint and lose nothing. */
  lemma ExemplarsSeal(a: map<Text, Partition>, passports: seq<Passport>, payloads: seq<Payload>, ids: seq<Text>)
    requires Join(passports, payloads, ids).Ok? && forall id | id in ids :: id in a
    ensures var ps := Join(passports, payloads, ids).value.0;
            var t, h := OnSide(Training, a, ps), OnSide(HeldOut, a, ps);
            && BatchKeys(t) == ExpectedKeys(Training, a, KeysOf(ps))
            && BatchKeys(h) == ExpectedKeys(HeldOut, a, KeysOf(ps))
            && Distinct(BatchKeys(t) + BatchKeys(h))
            && multiset(t) + multiset(h) == multiset(passports)
            && Elems(BatchKeys(t)) !! Elems(BatchKeys(h))
            && Elems(BatchKeys(t)) + Elems(BatchKeys(h)) == Elems(KeysOf(ps))
            && (forall p | p in t :: a[p.key.id] == Training) && (forall p | p in h :: a[p.key.id] == HeldOut)
  {
    JoinIsBijection(passports, payloads, ids);
    var ps := Join(passports, payloads, ids).value.0;
    SideKeys(Training, a, ps);
    SideKeys(HeldOut, a, ps);
    SidesComplement(a, passports, ps, ids);
  }

  lemma SidesComplement(a: map<Text, Partition>, passports: seq<Passport>, ps: seq<Passport>, ids: seq<Text>)
    requires multiset(ps) == multiset(passports) && StrictlySorted(KeyLt, KeysOf(ps))
    requires (forall id | id in ids :: id in a) && forall p | p in passports :: p.key.id in ids
    ensures var t, h := ExpectedKeys(Training, a, KeysOf(ps)), ExpectedKeys(HeldOut, a, KeysOf(ps));
            && multiset(OnSide(Training, a, ps)) + multiset(OnSide(HeldOut, a, ps)) == multiset(passports)
            && Elems(t) !! Elems(h) && Elems(t) + Elems(h) == Elems(KeysOf(ps)) && Distinct(t + h)
  {
    forall p | p in ps ensures p.key.id in a { assert p in multiset(passports) && p in passports; }
    PassportsComplement(a, ps);
    var ks := KeysOf(ps);
    forall k | k in ks ensures k.id in a {
      var i :| 0 <= i < |ks| && ks[i] == k;
      assert ps[i] in ps;
    }
    KeyOrder();
    StrictlySortedDistinct(KeyLt, ks);
    KeysComplement(a, ks);
  }

  lemma PassportsComplement(a: map<Text, Partition>, ps: seq<Passport>)
    requires forall p | p in ps :: p.key.id in a
    ensures multiset(OnSide(Training, a, ps)) + multiset(OnSide(HeldOut, a, ps)) == multiset(ps)
  {
    FilterComplement((p: Passport) => p.key.id in a && a[p.key.id] == Training,
                     (p: Passport) => p.key.id in a && a[p.key.id] == HeldOut, ps);
  }

  lemma KeysComplement(a: map<Text, Partition>, ks: seq<Key>)
    requires Distinct(ks) && forall k | k in ks :: k.id in a
    ensures var t, h := ExpectedKeys(Training, a, ks), ExpectedKeys(HeldOut, a, ks);
            Elems(t) !! Elems(h) && Elems(t) + Elems(h) == Elems(ks) && Distinct(t + h)
  {
    var t, h := ExpectedKeys(Training, a, ks), ExpectedKeys(HeldOut, a, ks);
    FilterDistinct((k: Key) => k.id in a && a[k.id] == Training, ks);
    FilterDistinct((k: Key) => k.id in a && a[k.id] == HeldOut, ks);
    forall i, j | 0 <= i < |t| && 0 <= j < |h| ensures t[i] != h[j] { assert t[i] in t && h[j] in h; }
    forall k ensures k in Elems(t) + Elems(h) <==> k in Elems(ks) {}
  }
}
