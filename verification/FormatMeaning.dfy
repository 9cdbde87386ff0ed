/** The byte formats, character by character: member names, the NPY preamble and header, the
    written archive and the hashed stream. */
module FormatMeaning {
  import opened Basics
  import opened Ordering
  import opened Trees
  import opened KeypathCodec
  import opened NpzCodec
  import opened PytreeDigest
  import opened NpyMember

  /** The bytes of ASCII text. */
  function Ascii(s: string): (r: Text)
    ensures |r| == |s|
  {
    seq(|s|, i requires 0 <= i < |s| => if s[i] as int < 256 then s[i] as int else 0)
  }

  lemma HeadIs()
    ensures HEAD == Ascii("{'descr': ")
  {
  }

  lemma MiddleIs()
    ensures MIDDLE == Ascii(", 'fortran_order': False, 'shape': ")
  {
  }

  lemma FootIs()
    ensures FOOT == Ascii(", }")
  {
  }

  lemma MagicIs()
    ensures MAGIC == [0x93] + Ascii("NUMPY") + [1, 0]
  {
  }

  // ---- member names ----

  /** The part's length in UTF-8 bytes as eight hexadecimal digits, then two digits a byte. */
  lemma PartSpelledOut(part: Text)
    requires |part| < 0x1_0000_0000
    ensures var e := EncodePart(part);
            && |e| == 8 + 2 * |part| && StrictInt(e[..8]) == Some(|part|) && StrictHex(e[8..]) == Some(part)
            && forall c | c in e :: c in "0123456789abcdef"
  {
    var e := EncodePart(part);
    Hex8Width(|part|);
    StrictReadsBack();
    assert e[..8] == Hex8(|part|) && e[8..] == HexBytes(part);
    assert ReadsBack(StrictLib());
    assert StrictLib().parseInt(Hex8(|part|)) == Some(|part|) && StrictLib().fromHex(HexBytes(part)) == Some(part);
    DigitsAreHex(|part|);
    BytesAreHex(part);
    forall c | c in e ensures c in "0123456789abcdef" {
      assert c in Hex8(|part|) || c in HexBytes(part);
      var d: nat :| d < 16 && c == HexDigit(d);
      assert "0123456789abcdef"[d] == c;
    }
  }

  /** The parts in order, separated by underscores, between k_ and .npy. */
  lemma NameSpelledOut(kp: Path)
    ensures Encode(kp).Some? <==> kp != [] && forall part | part in kp :: part != []
    ensures Encode(kp).Some? ==>
              exists texts: seq<string> ::
                && |texts| == |kp| && (forall k | 0 <= k < |kp| :: texts[k] == EncodePart(kp[k]))
                && Encode(kp) == Some("k_" + Underscored(texts) + ".npy")
  {
    if Encode(kp).Some? { var texts := PartTexts(kp); }
  }

  function Underscored(texts: seq<string>): string {
    if texts == [] then "" else if |texts| == 1 then texts[0] else texts[0] + "_" + Underscored(texts[1..])
  }

  lemma {:induction false} PartTexts(kp: Path) returns (texts: seq<string>)
    requires kp != []
    ensures |texts| == |kp| && (forall k | 0 <= k < |kp| :: texts[k] == EncodePart(kp[k]))
    ensures JoinParts(kp) == Underscored(texts)
  {
    if |kp| == 1 {
      texts := [EncodePart(kp[0])];
    } else {
      var more := PartTexts(kp[1..]);
      texts := [EncodePart(kp[0])] + more;
      assert texts[1..] == more;
    }
  }

  // ---- the NPY member ----

  /** "()", "(3,)", "(2, 3)": the sizes in decimal, separated by a comma and a space, with a
      comma after a single one. */
  ghost predicate IsShapeText(shape: seq<nat>, text: Text) {
    exists sizes: seq<Text> ::
      && |sizes| == |shape| && (forall k | 0 <= k < |sizes| :: IsDecimal(shape[k], sizes[k]))
      && text == Ascii("(") + Separated(sizes) + (if |shape| == 1 then Ascii(",") else []) + Ascii(")")
  }

  /** Decimal digits without leading zeros that stand for n. */
  ghost predicate IsDecimal(n: nat, digits: Text) {
    && digits != [] && (forall b | b in digits :: 48 <= b <= 57) && NpyMember.Number(digits) == n
    && (digits[0] == 48 ==> digits == [48])
  }

  function Separated(parts: seq<Text>): Text {
    if parts == [] then [] else if |parts| == 1 then parts[0] else parts[0] + Ascii(", ") + Separated(parts[1..])
  }

  lemma {:induction false} DecimalIsDecimal(n: nat)
    ensures IsDecimal(n, Decimal(n))
  {
    DecimalNumber(n);
    NoLeadingZero(n);
  }

  lemma {:induction false} NoLeadingZero(n: nat)
    ensures Decimal(n)[0] == 48 ==> n == 0
  {
    if n >= 10 { NoLeadingZero(n / 10); }
  }

  lemma {:induction false} DimsSeparated(shape: seq<nat>) returns (sizes: seq<Text>)
    requires shape != []
    ensures |sizes| == |shape| && (forall k | 0 <= k < |sizes| :: IsDecimal(shape[k], sizes[k]))
    ensures JoinDims(shape) == Separated(sizes)
  {
    DecimalIsDecimal(shape[0]);
    if |shape| == 1 {
      sizes := [Decimal(shape[0])];
    } else {
      var more := DimsSeparated(shape[1..]);
      sizes := [Decimal(shape[0])] + more;
      assert sizes[1..] == more;
      assert Ascii(", ") == [COMMA, SPACE];
    }
  }

  lemma ShapeSpelledOut(shape: seq<nat>)
    ensures IsShapeText(shape, ShapeText(shape))
  {
    assert Ascii("(") == [OPEN] && Ascii(")") == [CLOSE] && Ascii(",") == [COMMA];
    if shape == [] {
      assert ShapeText(shape) == Ascii("(") + Separated([]) + [] + Ascii(")");
    } else {
      var sizes := DimsSeparated(shape);
      assert ShapeText(shape) == Ascii("(") + Separated(sizes) + (if |shape| == 1 then Ascii(",") else []) + Ascii(")");
    }
  }

  /** \x93NUMPY, version 1.0, the header's length in two little-endian bytes, the header as a
      Python dict padded with spaces to whole blocks of 16 and ended by a newline, the data. */
  ghost predicate IsMember(descr: Text, shape: seq<nat>, data: Text, m: Text) {
    exists header: Text ::
      && IsHeader(descr, shape, header) && |header| < 0x1_0000 && (10 + |header|) % 16 == 0
      && m == [0x93] + Ascii("NUMPY") + [1, 0] + [|header| % 256, |header| / 256] + header + data
  }

  /** The dict, fewer than 16 spaces and the newline. */
  ghost predicate IsHeader(descr: Text, shape: seq<nat>, header: Text) {
    IsHeaderOf(Ascii("{'descr': "), Ascii(", 'fortran_order': False, 'shape': "), Ascii(", }"), descr, shape, header)
  }

  ghost predicate IsHeaderOf(head: Text, middle: Text, foot: Text, descr: Text, shape: seq<nat>, header: Text) {
    exists shapeText: Text, spaces: Text ::
      && IsShapeText(shape, shapeText) && |spaces| < 16 && (forall b | b in spaces :: b == 32)
      && header == head + [39] + descr + [39] + middle + shapeText + foot + spaces + [10]
  }

  lemma {:induction false} SpacesAre(n: nat)
    ensures forall b | b in Spaces(n) :: b == 32
  {
    if n > 0 { SpacesAre(n - 1); }
  }

  lemma HeaderSpelledOut(descr: Text, shape: seq<nat>)
    ensures IsHeader(descr, shape, HeaderBytes(descr, shape))
  {
    HeadIs();
    MiddleIs();
    FootIs();
    HeaderParts(descr, shape);
  }

  lemma HeaderParts(descr: Text, shape: seq<nat>)
    ensures IsHeaderOf(HEAD, MIDDLE, FOOT, descr, shape, HeaderBytes(descr, shape))
  {
    var n := Padding(|Header(descr, shape)|);
    ShapeSpelledOut(shape);
    PaddingAligns(|Header(descr, shape)|);
    SpacesAre(n);
    Assembled(HEAD, MIDDLE, FOOT, descr, shape, ShapeText(shape), Spaces(n));
  }

  lemma Assembled(head: Text, middle: Text, foot: Text, descr: Text, shape: seq<nat>, shapeText: Text, spaces: Text)
    requires IsShapeText(shape, shapeText) && |spaces| < 16 && forall b | b in spaces :: b == 32
    ensures IsHeaderOf(head, middle, foot, descr, shape, head + [39] + descr + [39] + middle + shapeText + foot + spaces + [10])
  {
  }

  /** Every member written has this form. */
  lemma MemberSpelledOut(descr: Text, shape: seq<nat>, data: Text)
    requires Member(descr, shape, data).Some?
    ensures IsMember(descr, shape, data, Member(descr, shape, data).value)
  {
    MagicIs();
    HeaderSpelledOut(descr, shape);
    MemberAligned(descr, shape, data);
    var header := HeaderBytes(descr, shape);
    assert Member(descr, shape, data).value ==
           [0x93] + Ascii("NUMPY") + [1, 0] + [|header| % 256, |header| / 256] + header + data;
  }

  // ---- the written archive ----

  /** The data in little-endian order. */
  function StoredData(lib: ArrayLib, a: Array): Text { if a.dtype.order == BigEndian then lib.swap(a.dtype, a.data) else a.data }

  /** '|' for a dtype without byte order and '<' for every other, and its code. */
  function StoredDtype(a: Array): Text { [if a.dtype.order == NoOrder then 124 else 60] + a.dtype.code }

  /** The leaf holds neither objects nor records, and its header is short enough. */
  ghost predicate Storable(lib: ArrayLib, a: Array) {
    a.dtype.kind == Plain && exists m :: Member(StoredDtype(a), a.shape, StoredData(lib, a)) == Some(m)
  }

  /** d describes the leaf, and the member it names holds it. */
  ghost predicate Stores(lib: ArrayLib, a: Array, members: map<string, Text>, d: LeafDesc) {
    && Encode(d.keypath) == Some(d.member) && d.shape == a.shape && d.dtype == Native(a.dtype.name)
    && d.member in members && Member(StoredDtype(a), a.shape, StoredData(lib, a)) == Some(members[d.member])
  }

  /** One entry and one member for each leaf of t, entries by ascending keypath, nothing else. */
  ghost predicate WrittenFrom(lib: ArrayLib, t: Tree<Array>, arch: Archive) {
    && (forall i, j | 0 <= i < j < |arch.leaves| :: PathLt(arch.leaves[i].keypath, arch.leaves[j].keypath))
    && (forall p :: IsLeafPath(t, p) <==> exists i :: 0 <= i < |arch.leaves| && arch.leaves[i].keypath == p)
    && (forall i | 0 <= i < |arch.leaves| ::
          IsLeafPath(t, arch.leaves[i].keypath) && Stores(lib, LeafAt(t, arch.leaves[i].keypath).value, arch.members, arch.leaves[i]))
    && (forall m | m in arch.members :: exists i :: 0 <= i < |arch.leaves| && arch.leaves[i].member == m)
  }

  lemma CanonicalStored(lib: ArrayLib, a: Array)
    ensures NpyBytes(Canonical(lib, a)) == Member(StoredDtype(a), a.shape, StoredData(lib, a))
    ensures Canonical(lib, a).shape == a.shape && Name(Canonical(lib, a).dtype) == Native(a.dtype.name)
  {
  }

  lemma RowStores(lib: ArrayLib, members: map<string, Text>, d: LeafDesc, p: Path, a: Array)
    requires Row(members, d, (p, Canonical(lib, a)))
    ensures d.keypath == p && Stores(lib, a, members, d)
  {
    CanonicalStored(lib, a);
  }

  /** The i-th entry stores the i-th leaf. */
  ghost predicate HeldAt(lib: ArrayLib, t: Tree<Array>, arch: Archive, flat: Entries<Array>, i: int)
    requires 0 <= i < |flat| == |arch.leaves|
  {
    && arch.leaves[i].keypath == flat[i].0 && LeafAt(t, flat[i].0) == Some(flat[i].1)
    && Stores(lib, flat[i].1, arch.members, arch.leaves[i])
  }

  lemma HeldRow(lib: ArrayLib, t: Tree<Array>, arch: Archive, i: int)
    requires Holds(arch, MapEntries(Canon(lib), Flat(t, []))) && 0 <= i < |Flat(t, [])|
    ensures |arch.leaves| == |Flat(t, [])| && HeldAt(lib, t, arch, Flat(t, []), i)
  {
    var flat := Flat(t, []);
    assert Row(arch.members, arch.leaves[i], MapEntries(Canon(lib), flat)[i]);
    RowStores(lib, arch.members, arch.leaves[i], flat[i].0, flat[i].1);
    FlatLists(t);
    assert (flat[i].0, flat[i].1) in flat;
  }

  lemma PathsHeld(lib: ArrayLib, t: Tree<Array>, arch: Archive)
    requires |arch.leaves| == |Flat(t, [])| && forall i | 0 <= i < |arch.leaves| :: HeldAt(lib, t, arch, Flat(t, []), i)
    ensures forall i, j | 0 <= i < j < |arch.leaves| :: PathLt(arch.leaves[i].keypath, arch.leaves[j].keypath)
    ensures forall p :: IsLeafPath(t, p) <==> exists i :: 0 <= i < |arch.leaves| && arch.leaves[i].keypath == p
  {
    var flat := Flat(t, []);
    FlatLists(t);
    FlatSorted(t, []);
    forall i, j | 0 <= i < j < |arch.leaves| ensures PathLt(arch.leaves[i].keypath, arch.leaves[j].keypath) {
      assert HeldAt(lib, t, arch, flat, i) && HeldAt(lib, t, arch, flat, j);
      assert PathLt(Paths(flat)[i], Paths(flat)[j]);
      PathsOfMember(flat, i);
      PathsOfMember(flat, j);
    }
    forall p ensures IsLeafPath(t, p) <==> exists i :: 0 <= i < |arch.leaves| && arch.leaves[i].keypath == p {
      PathHeld(lib, t, arch, p);
    }
  }

  lemma PathHeld(lib: ArrayLib, t: Tree<Array>, arch: Archive, p: Path)
    requires |arch.leaves| == |Flat(t, [])| && forall i | 0 <= i < |arch.leaves| :: HeldAt(lib, t, arch, Flat(t, []), i)
    ensures IsLeafPath(t, p) <==> exists i :: 0 <= i < |arch.leaves| && arch.leaves[i].keypath == p
  {
    var flat := Flat(t, []);
    FlatLists(t);
    if IsLeafPath(t, p) {
      assert (p, LeafAt(t, p).value) in flat;
      var i :| 0 <= i < |flat| && flat[i] == (p, LeafAt(t, p).value);
      assert HeldAt(lib, t, arch, flat, i);
    }
    if i :| 0 <= i < |arch.leaves| && arch.leaves[i].keypath == p { assert HeldAt(lib, t, arch, flat, i); }
  }

  lemma HeldIsWritten(lib: ArrayLib, t: Tree<Array>, arch: Archive)
    requires Holds(arch, MapEntries(Canon(lib), Flat(t, [])))
    ensures WrittenFrom(lib, t, arch)
  {
    forall i | 0 <= i < |Flat(t, [])| ensures |arch.leaves| == |Flat(t, [])| && HeldAt(lib, t, arch, Flat(t, []), i) {
      HeldRow(lib, t, arch, i);
    }
    assert forall m | m in arch.members :: Listed(arch.leaves, m);
    WrittenIfHeld(lib, t, arch);
  }

  lemma WrittenIfHeld(lib: ArrayLib, t: Tree<Array>, arch: Archive)
    requires |arch.leaves| == |Flat(t, [])| && forall i | 0 <= i < |arch.leaves| :: HeldAt(lib, t, arch, Flat(t, []), i)
    requires forall m | m in arch.members :: Listed(arch.leaves, m)
    ensures WrittenFrom(lib, t, arch)
  {
    PathsHeld(lib, t, arch);
    forall i | 0 <= i < |arch.leaves|
      ensures IsLeafPath(t, arch.leaves[i].keypath) && Stores(lib, LeafAt(t, arch.leaves[i].keypath).value, arch.members, arch.leaves[i])
    {
      assert HeldAt(lib, t, arch, Flat(t, []), i);
    }
  }

  /** Writing succeeds exactly on nested nonempty mappings with nonempty keys whose leaves can be
      stored, and the archive is then written from them. */
  lemma WrittenSpelledOut(lib: ArrayLib, o: PyTree)
    requires UniqueKeys(o)
    ensures Write(lib, o).Some? <==>
            o.PyDict? && NoEmpty(Meaning(o)) && GoodKeys(Meaning(o)) &&
            forall p | IsLeafPath(Meaning(o), p) :: Storable(lib, LeafAt(Meaning(o), p).value)
    ensures Write(lib, o).Some? ==> WrittenFrom(lib, Meaning(o), Write(lib, o).value)
  {
    WriteTheorem(lib, o);
    forall p | IsLeafPath(Meaning(o), p)
      ensures Writable(lib, LeafAt(Meaning(o), p).value) <==> Storable(lib, LeafAt(Meaning(o), p).value)
    {
      CanonicalStored(lib, LeafAt(Meaning(o), p).value);
    }
    if Write(lib, o).Some? {
      FlatMapTree(Canon(lib), Meaning(o));
      HeldIsWritten(lib, Meaning(o), Write(lib, o).value);
    }
  }

  // ---- the hashed stream ----

  /** The number that big-endian bytes stand for. */
  function BigNumber(b: Text): nat { if b == [] then 0 else 256 * BigNumber(b[..|b| - 1]) + b[|b| - 1] }

  lemma {:induction false} BigBytesNumber(n: nat, k: nat)
    requires n < Pow256(k)
    ensures BigNumber(BigBytes(n, k)) == n
  {
    if k > 0 {
      BigBytesNumber(n / 256, k - 1);
      var b := BigBytes(n, k);
      assert b[..|b| - 1] == BigBytes(n / 256, k - 1);
    }
  }

  /** bytes behind their length in eight big-endian bytes. */
  ghost predicate IsFrame(bytes: Text, frame: Text) {
    |frame| == 8 + |bytes| && BigNumber(frame[..8]) == |bytes| && frame[8..] == bytes
  }

  lemma FrameSpelledOut(bytes: Text)
    requires Framed(bytes)
    ensures IsFrame(bytes, Frame(bytes))
  {
    BigBytesNumber(|bytes|, 8);
    assert Frame(bytes)[..8] == BigBytes(|bytes|, 8) && Frame(bytes)[8..] == bytes;
  }

  /** For each entry of the descriptor its JSON text and then the leaf's little-endian data, each in a frame. */
  ghost predicate IsStream(lib: ArrayLib, json: Json, t: Tree<Array>, leaves: seq<LeafDesc>, stream: Text)
    requires forall d | d in leaves :: IsLeafPath(t, d.keypath)
  {
    if leaves == [] then stream == []
    else
      assert IsLeafPath(t, leaves[0].keypath) && forall d | d in leaves[1..] :: d in leaves;
      var leaf := LeafAt(t, leaves[0].keypath).value;
      exists text, data, rest: Text ::
        && IsFrame(json(leaves[0]), text) && IsFrame(StoredData(lib, leaf), data)
        && IsStream(lib, json, t, leaves[1..], rest) && stream == text + data + rest
  }

  /** The bytes hashed for a tree are those of the descriptor and the data the writer records for it. */
  lemma HashedAsWritten(lib: ArrayLib, json: Json, o: PyTree)
    requires UniqueKeys(o) && Write(lib, o).Some? && DigestInput(lib, json, o).Some?
    ensures var leaves := Write(lib, o).value.leaves;
            && (forall d | d in leaves :: IsLeafPath(Meaning(o), d.keypath))
            && IsStream(lib, json, Meaning(o), leaves, DigestInput(lib, json, o).value)
  {
    var t, leaves := Meaning(o), Write(lib, o).value.leaves;
    WriteTheorem(lib, o);
    WrittenSpelledOut(lib, o);
    InputIsStream(lib, json, o);
    FlatMapTree(Canon(lib), t);
    FlatMapTree(Logic(lib), t);
    var flat := Flat(t, []);
    forall i | 0 <= i < |flat| ensures HashedRow(lib, t, leaves[i], flat[i]) {
      HeldRow(lib, t, Write(lib, o).value, i);
    }
    StreamSpelledOut(lib, json, t, flat, leaves);
  }

  /** The entry describes this leaf of t. */
  ghost predicate HashedRow(lib: ArrayLib, t: Tree<Array>, d: LeafDesc, e: (Path, Array)) {
    LeafAt(t, e.0) == Some(e.1) && d == LeafDesc(e.0, Encode(e.0).GetOr(""), e.1.shape, Native(e.1.dtype.name))
  }

  lemma {:induction false} StreamSpelledOut(lib: ArrayLib, json: Json, t: Tree<Array>, es: Entries<Array>, leaves: seq<LeafDesc>)
    requires |leaves| == |es| && forall i | 0 <= i < |es| :: HashedRow(lib, t, leaves[i], es[i])
    requires FitsFrames(json, MapEntries(Logic(lib), es))
    ensures forall d | d in leaves :: IsLeafPath(t, d.keypath)
    ensures IsStream(lib, json, t, leaves, Stream(json, MapEntries(Logic(lib), es)))
    decreases |es|
  {
    forall d | d in leaves ensures IsLeafPath(t, d.keypath) {
      var i :| 0 <= i < |leaves| && leaves[i] == d;
      assert HashedRow(lib, t, leaves[i], es[i]);
    }
    if es != [] {
      var ls := MapEntries(Logic(lib), es);
      assert ls[0] in ls && ls[1..] == MapEntries(Logic(lib), es[1..]);
      assert HashedRow(lib, t, leaves[0], es[0]);
      FirstFrames(lib, json, t, leaves[0], es[0]);
      forall i | 0 <= i < |es[1..]| ensures HashedRow(lib, t, leaves[1..][i], es[1..][i]) { assert HashedRow(lib, t, leaves[i + 1], es[i + 1]); }
      StreamSpelledOut(lib, json, t, es[1..], leaves[1..]);
      var text, data, rest := Frame(json(leaves[0])), Frame(ls[0].1.data), Stream(json, ls[1..]);
      assert Stream(json, ls) == text + data + rest;
    }
  }

  /** The two frames of a leaf. */
  lemma FirstFrames(lib: ArrayLib, json: Json, t: Tree<Array>, d: LeafDesc, e: (Path, Array))
    requires HashedRow(lib, t, d, e)
    requires var l := (e.0, Logic(lib)(e.1)); Framed(json(Desc(l))) && Framed(l.1.data)
    ensures var l := (e.0, Logic(lib)(e.1));
            Desc(l) == d && IsFrame(json(d), Frame(json(d))) && IsFrame(StoredData(lib, e.1), Frame(l.1.data))
  {
    var l := (e.0, Logic(lib)(e.1));
    CanonicalStored(lib, e.1);
    assert l.1.data == StoredData(lib, e.1);
    FrameSpelledOut(json(d));
    FrameSpelledOut(l.1.data);
  }
}
