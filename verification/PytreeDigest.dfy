/** The hashed stream of mapping_pytree_digest: length-framed descriptor and array bytes. */
module PytreeDigest {
  import opened Basics
  import opened Ordering
  import opened Trees
  import opened KeypathCodec
  import opened NpzCodec

  // ---- 8-byte big-endian lengths ----

  /** n.to_bytes(k, "big") for n below 256^k. */
  function BigBytes(n: nat, k: nat): (r: Text)
    ensures |r| == k
  {
    if k == 0 then [] else BigBytes(n / 256, k - 1) + [n % 256]
  }

  function Pow256(k: nat): nat { if k == 0 then 1 else 256 * Pow256(k - 1) }

  lemma {:induction false} BigBytesInjective(m: nat, n: nat, k: nat)
    requires m < Pow256(k) && n < Pow256(k) && BigBytes(m, k) == BigBytes(n, k)
    ensures m == n
  {
    if k > 0 {
      var a, b := BigBytes(m, k), BigBytes(n, k);
      assert a[..k - 1] == BigBytes(m / 256, k - 1) && b[..k - 1] == BigBytes(n / 256, k - 1);
      assert a[k - 1] == m % 256 && b[k - 1] == n % 256;
      BigBytesInjective(m / 256, n / 256, k - 1);
    }
  }

  // ---- the stream ----

  /** What identifies a canonical leaf besides its keypath: its descriptor fields and bytes. */
  datatype Logical = Logical(shape: seq<nat>, dtype: DTypeName, data: Text)

  /** _canonical_array followed by the reads the digest makes of the array. */
  function Logic(lib: ArrayLib): Array -> Logical {
    (a: Array) => var c := Canonical(lib, a); Logical(c.shape, Name(c.dtype), c.data)
  }

  /** json renders a leaf descriptor. */
  type Json = LeafDesc -> Text

  predicate Framed(bytes: Text) { |bytes| < Pow256(8) }

  function Frame(bytes: Text): Text { BigBytes(|bytes|, 8) + bytes }

  function Desc(e: (Path, Logical)): LeafDesc { LeafDesc(e.0, Encode(e.0).GetOr(""), e.1.shape, e.1.dtype) }

  function DescText(json: Json, e: (Path, Logical)): Text { json(Desc(e)) }

  function LeafStream(json: Json, e: (Path, Logical)): Text { Frame(DescText(json, e)) + Frame(e.1.data) }

  /** Everything fed to the hash, in order. */
  function Stream(json: Json, es: Entries<Logical>): Text {
    if es == [] then [] else LeafStream(json, es[0]) + Stream(json, es[1..])
  }

  ghost predicate FitsFrames(json: Json, es: Entries<Logical>) {
    forall e | e in es :: Framed(DescText(json, e)) && Framed(e.1.data)
  }

  /** The digest's input; None where flattening, the dtype check or a length conversion raises. */
  ghost function DigestInput(lib: ArrayLib, json: Json, o: PyTree): Option<Text> {
    match Flatten(o, [])
    case None => None
    case Some(es) =>
      var ls := MapEntries(Logic(lib), Sort(ByPath, es));
      if (exists e :: e in es && !Admissible(e.1)) || !FitsFrames(json, ls) then None
      else Some(Stream(json, ls))
  }

  lemma FrameCut(a: Text, ra: Text, b: Text, rb: Text)
    requires Framed(a) && Framed(b) && Frame(a) + ra == Frame(b) + rb
    ensures a == b && ra == rb
  {
    var x, y := Frame(a) + ra, Frame(b) + rb;
    assert x[..8] == BigBytes(|a|, 8) && y[..8] == BigBytes(|b|, 8);
    BigBytesInjective(|a|, |b|, 8);
    assert x[8..8 + |a|] == a && y[8..8 + |b|] == b;
    assert x[8 + |a|..] == ra && y[8 + |b|..] == rb;
  }

  /** json renders different descriptors of these leaves differently. */
  ghost predicate TellsApart(json: Json, es: Entries<Logical>, fs: Entries<Logical>) {
    forall e, f | e in es && f in fs :: DescText(json, e) == DescText(json, f) ==> Desc(e) == Desc(f)
  }

  lemma Regrouped(a: Text, b: Text, c: Text)
    ensures a + b + c == a + (b + c)
  {
  }

  lemma LeafCut(json: Json, a: (Path, Logical), ra: Text, b: (Path, Logical), rb: Text)
    requires DescText(json, a) == DescText(json, b) ==> Desc(a) == Desc(b)
    requires Framed(DescText(json, a)) && Framed(a.1.data) && Framed(DescText(json, b)) && Framed(b.1.data)
    requires LeafStream(json, a) + ra == LeafStream(json, b) + rb
    ensures a == b && ra == rb
  {
    var ta, tb := DescText(json, a), DescText(json, b);
    Regrouped(Frame(ta), Frame(a.1.data), ra);
    Regrouped(Frame(tb), Frame(b.1.data), rb);
    FrameCut(ta, Frame(a.1.data) + ra, tb, Frame(b.1.data) + rb);
    FrameCut(a.1.data, ra, b.1.data, rb);
    assert a == (a.0, a.1) && b == (b.0, b.1);
  }

  /** The stream is uniquely decodable. */
  lemma {:induction false} StreamInjective(json: Json, a: Entries<Logical>, b: Entries<Logical>)
    requires TellsApart(json, a, b) && FitsFrames(json, a) && FitsFrames(json, b)
    requires Stream(json, a) == Stream(json, b)
    ensures a == b
    decreases |a|
  {
    if a == [] || b == [] {
      assert a != [] ==> |Stream(json, a)| >= 8;
      assert b != [] ==> |Stream(json, b)| >= 8;
    } else {
      assert a[0] in a && b[0] in b;
      LeafCut(json, a[0], Stream(json, a[1..]), b[0], Stream(json, b[1..]));
      assert (forall e | e in a[1..] :: e in a) && (forall e | e in b[1..] :: e in b);
      StreamInjective(json, a[1..], b[1..]);
      assert a == [a[0]] + a[1..] && b == [b[0]] + b[1..];
    }
  }

  lemma InputIsStream(lib: ArrayLib, json: Json, o: PyTree)
    requires UniqueKeys(o) && DigestInput(lib, json, o).Some?
    ensures var ls := Flat(MapTree(Logic(lib), Meaning(o)), []);
            NoEmpty(Meaning(o)) && Meaning(o).Branch? && FitsFrames(json, ls) && DigestInput(lib, json, o) == Some(Stream(json, ls))
  {
    FlattenIsFlat(o, []);
    SortedFlat(o);
    FlatMapTree(Logic(lib), Meaning(o));
  }

  /** The leaves whose descriptors and bytes are hashed, in order. */
  ghost function HashedLeaves(lib: ArrayLib, o: PyTree): Entries<Logical> { Flat(MapTree(Logic(lib), Meaning(o)), []) }

  /** Two trees feed the hash the same bytes exactly when they are the same nested mapping
      of canonical leaves; insertion order never shows. */
  lemma DigestIdentifiesTree(lib: ArrayLib, json: Json, a: PyTree, b: PyTree)
    requires UniqueKeys(a) && UniqueKeys(b) && DigestInput(lib, json, a).Some? && DigestInput(lib, json, b).Some?
    requires TellsApart(json, HashedLeaves(lib, a), HashedLeaves(lib, b))
    ensures DigestInput(lib, json, a) == DigestInput(lib, json, b) <==>
            MapTree(Logic(lib), Meaning(a)) == MapTree(Logic(lib), Meaning(b))
  {
    InputIsStream(lib, json, a);
    InputIsStream(lib, json, b);
    var ta, tb := MapTree(Logic(lib), Meaning(a)), MapTree(Logic(lib), Meaning(b));
    MapTreeNoEmpty(Logic(lib), Meaning(a));
    MapTreeNoEmpty(Logic(lib), Meaning(b));
    if DigestInput(lib, json, a) == DigestInput(lib, json, b) {
      StreamInjective(json, Flat(ta, []), Flat(tb, []));
      FlattenBuild(ta);
      FlattenBuild(tb);
    }
  }
}
