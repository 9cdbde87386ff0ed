/** Member names: keypaths as length-prefixed hexadecimal text, and the decoder. */
module KeypathCodec {
  import opened Basics

  // ---- hexadecimal text ----

  function HexDigit(d: nat): char
    requires d < 16
  {
    "0123456789abcdef"[d]
  }

  /** bytes.hex() */
  function HexBytes(b: Text): (s: string)
    ensures |s| == 2 * |b|
  {
    if b == [] then "" else [HexDigit(b[0] / 16), HexDigit(b[0] % 16)] + HexBytes(b[1..])
  }

  function HexDigits(n: nat): (s: string)
    ensures |s| >= 1
  {
    if n < 16 then [HexDigit(n)] else HexDigits(n / 16) + [HexDigit(n % 16)]
  }

  function Zeros(n: nat): (s: string)
    ensures |s| == n
  {
    if n == 0 then "" else "0" + Zeros(n - 1)
  }

  /** format(n, '08x') */
  function Hex8(n: nat): (s: string) {
    var d := HexDigits(n);
    if |d| < 8 then Zeros(8 - |d|) + d else d
  }

  const LIMIT: nat := 0x1_0000_0000

  // ---- encode_keypath ----

  predicate Encodable(kp: Path) { kp != [] && forall part | part in kp :: part != [] }

  function EncodePart(part: Text): string { Hex8(|part|) + HexBytes(part) }

  function JoinParts(kp: Path): string
    requires kp != []
  {
    if |kp| == 1 then EncodePart(kp[0]) else EncodePart(kp[0]) + "_" + JoinParts(kp[1..])
  }

  function Encode(kp: Path): Option<string> {
    if Encodable(kp) then Some("k_" + JoinParts(kp) + ".npy") else None
  }

  // ---- decode_member_name ----

  /** The text primitives the decoder calls: int(s, 16), bytes.fromhex and whether
      bytes decode as UTF-8. */
  datatype TextLib = TextLib(
    parseInt: string -> Option<int>,
    fromHex: string -> Option<Text>,
    isUtf8: Text -> bool)

  /** They read back what formatting writes. Nothing is said about other text. */
  ghost predicate ReadsBack(lib: TextLib) {
    && (forall n: nat | |Hex8(n)| == 8 :: lib.parseInt(Hex8(n)) == Some(n))
    && (forall b: Text :: lib.fromHex(HexBytes(b)) == Some(b))
  }

  /** s[:n] and s[n:] for any integer n. */
  function Take(s: string, n: int): string {
    if n >= |s| then s else if n >= 0 then s[..n] else if |s| + n >= 0 then s[..|s| + n] else ""
  }

  function Drop(s: string, n: int): (r: string)
    ensures |r| <= |s|
  {
    if n >= |s| then "" else if n >= 0 then s[n..] else if |s| + n >= 0 then s[|s| + n..] else s
  }

  /** One round of the loop: the part read and the text left; None where the source raises. */
  function ReadPart(lib: TextLib, raw: string): (r: Option<(Text, string)>)
    ensures r.Some? ==> |r.value.1| < |raw|
  {
    if |raw| < 8 then None
    else
      var size := lib.parseInt(raw[..8]);
      var rest := raw[8..];
      if size.None? || size.value == 0 || |rest| < 2 * size.value then None
      else
        var part := lib.fromHex(Take(rest, 2 * size.value));
        var after := Drop(rest, 2 * size.value);
        if part.None? || !lib.isUtf8(part.value) || (after != "" && after[0] != '_') then None
        else Some((part.value, Drop(after, 1)))
  }

  lemma PartRead(lib: TextLib, raw: string, size: int, part: Text)
    requires |raw| >= 8 && lib.parseInt(raw[..8]) == Some(size) && size != 0 && |raw| - 8 >= 2 * size
    requires lib.fromHex(Take(raw[8..], 2 * size)) == Some(part) && lib.isUtf8(part)
    ensures var after := Drop(raw[8..], 2 * size);
            ReadPart(lib, raw) == if after != "" && after[0] != '_' then None else Some((part, Drop(after, 1)))
  {
  }

  /** The parts read from raw. */
  function DecodeParts(lib: TextLib, raw: string): Option<Path>
    decreases |raw|
  {
    if raw == "" then Some([])
    else match ReadPart(lib, raw)
      case None => None
      case Some(read) =>
        Prepend([read.0], DecodeParts(lib, read.1))
  }

  function Body(name: string): Option<string> {
    if |name| >= 6 && name[..2] == "k_" && name[|name| - 4..] == ".npy" then Some(name[2..|name| - 4]) else None
  }

  function Decode(lib: TextLib, name: string): Option<Path> {
    match Body(name)
    case None => None
    case Some(raw) => DecodeParts(lib, raw)
  }

  function Prepend(ps: Path, more: Option<Path>): Option<Path> {
    match more case None => None case Some(qs) => Some(ps + qs)
  }

  /** Stripping the prefix and then the suffix. */
  lemma BodyInSteps(name: string)
    ensures Body(name) ==
            if |name| < 2 || name[..2] != "k_" then None
            else
              var raw := name[2..];
              if |raw| < 4 || raw[|raw| - 4..] != ".npy" then None else Some(raw[..|raw| - 4])
  {
    if |name| >= 6 {
      var raw := name[2..];
      assert raw[|raw| - 4..] == name[|name| - 4..] && raw[..|raw| - 4] == name[2..|name| - 4];
    }
  }

  lemma PrependParts(ps: Path, qs: Path, more: Option<Path>)
    ensures Prepend(ps, Prepend(qs, more)) == Prepend(ps + qs, more)
    ensures Prepend([], more) == more
  {
    if more.Some? {
      assert ps + (qs + more.value) == ps + qs + more.value;
      assert [] + more.value == more.value;
    }
  }

  /** One turn of the loop, as written. */
  method ReadOnePart(lib: TextLib, text: string) returns (r: Option<(Text, string)>)
    requires text != ""
    ensures r == ReadPart(lib, text)
  {
    var raw := text;
    if |raw| < 8 { return None; }
    var size := lib.parseInt(raw[..8]);
    if size.None? { return None; }
    raw := raw[8..];
    var encodedSize := size.value * 2;
    if size.value == 0 || |raw| < encodedSize { return None; }
    var value := lib.fromHex(Take(raw, encodedSize));
    if value.None? || !lib.isUtf8(value.value) { return None; }
    raw := Drop(raw, encodedSize);
    PartRead(lib, text, size.value, value.value);
    ghost var after := raw;
    if raw != "" {
      if raw[0] != '_' { return None; }
      raw := raw[1..];
    }
    assert raw == Drop(after, 1);
    return Some((value.value, raw));
  }

  /** The loop consuming the name. It ends on every string, whatever the primitives answer,
      negative sizes included. */
  method DecodeMemberName(lib: TextLib, name: string) returns (r: Option<Path>)
    ensures r == Decode(lib, name)
  {
    BodyInSteps(name);
    if |name| < 2 || name[..2] != "k_" { return None; }
    var raw := name[2..];
    if |raw| < 4 || raw[|raw| - 4..] != ".npy" { return None; }
    raw := raw[..|raw| - 4];
    var parts: Path := [];
    ghost var whole := Decode(lib, name);
    PrependParts([], [], DecodeParts(lib, raw));
    while raw != ""
      invariant whole == Prepend(parts, DecodeParts(lib, raw))
      decreases |raw|
    {
      var read := ReadOnePart(lib, raw);
      if read.None? { return None; }
      PrependParts(parts, [read.value.0], DecodeParts(lib, read.value.1));
      parts := parts + [read.value.0];
      raw := read.value.1;
    }
    assert parts + [] == parts;
    return Some(parts);
  }

  // ---- the round trip ----

  function HexValue(c: char): nat
    ensures HexValue(c) <= 16
  {
    if '0' <= c <= '9' then (c - '0') as nat
    else if 'a' <= c <= 'f' then (c - 'a') as nat + 10
    else 16
  }

  lemma HexDigitValue(d: nat)
    requires d < 16
    ensures HexValue(HexDigit(d)) == d
  {
    assert d == 0 || d == 1 || d == 2 || d == 3 || d == 4 || d == 5 || d == 6 || d == 7 || d == 8
        || d == 9 || d == 10 || d == 11 || d == 12 || d == 13 || d == 14 || d == 15;
  }

  function Pow16(k: nat): nat { if k == 0 then 1 else 16 * Pow16(k - 1) }

  lemma {:induction false} DigitsLength(n: nat, k: nat)
    requires k >= 1
    ensures |HexDigits(n)| <= k <==> n < Pow16(k)
  {
    if n >= 16 {
      if k == 1 {
        assert Pow16(1) == 16 * Pow16(0);
      } else {
        DigitsLength(n / 16, k - 1);
      }
    } else {
      PowAtLeast(k);
    }
  }

  lemma {:induction false} PowAtLeast(k: nat)
    requires k >= 1
    ensures Pow16(k) >= 16
  {
    if k > 1 { PowAtLeast(k - 1); }
  }

  /** The length field is eight digits wide exactly below the limit. */
  lemma Hex8Width(n: nat)
    ensures |Hex8(n)| == 8 <==> n < LIMIT
    ensures |Hex8(n)| >= 8
  {
    DigitsLength(n, 8);
    assert Pow16(8) == LIMIT by {
      assert Pow16(4) == 0x1_0000 by { assert Pow16(2) == 256; }
      assert Pow16(8) == 0x1_0000 * Pow16(4);
    }
  }

  /** Past the limit the first eight digits spell a smaller, nonzero number. */
  lemma {:induction false} WidePrefix(n: nat)
    requires n >= LIMIT
    ensures |Hex8(n)| > 8
    ensures exists m :: 0 < m < n && |Hex8(m)| == 8 && Hex8(m) == Hex8(n)[..8]
  {
    Hex8Width(n);
    var m := n / 16;
    assert HexDigits(n) == HexDigits(m) + [HexDigit(n % 16)];
    if m < LIMIT {
      Hex8Width(m);
      DigitsLength(m, 7);
      assert Pow16(7) == 0x1000_0000 by { assert Pow16(4) == 0x1_0000 by { assert Pow16(2) == 256; } }
      assert Hex8(m) == HexDigits(m) == Hex8(n)[..8];
    } else {
      WidePrefix(m);
      var k :| 0 < k < m && |Hex8(k)| == 8 && Hex8(k) == Hex8(m)[..8];
      assert Hex8(m)[..8] == Hex8(n)[..8];
    }
  }

  ghost predicate Narrow(kp: Path) { forall part | part in kp :: |part| < LIMIT }

  ghost predicate AllUtf8(lib: TextLib, kp: Path) { forall part | part in kp :: lib.isUtf8(part) }

  /** What follows the first part inside the body. */
  function Rest(kp: Path): string
    requires kp != []
  {
    if |kp| == 1 then "" else "_" + JoinParts(kp[1..])
  }

  lemma JoinShape(kp: Path)
    requires kp != []
    ensures JoinParts(kp) == Hex8(|kp[0]|) + HexBytes(kp[0]) + Rest(kp)
  {
    if |kp| == 1 {
      Nothing(EncodePart(kp[0]));
    } else {
      Regroup(EncodePart(kp[0]), "_", JoinParts(kp[1..]));
    }
  }

  lemma Regroup(a: string, b: string, c: string)
    ensures a + b + c == a + (b + c)
  {
  }

  lemma Nothing(a: string)
    ensures a + "" == a
  {
  }

  /** Reading one length field and one value field. */
  lemma ReadField(lib: TextLib, h: string, size: nat, x: string, part: Text, tail: string)
    requires |h| == 8 && lib.parseInt(h) == Some(size) && size > 0
    requires |x| == 2 * size && lib.fromHex(x) == Some(part)
    ensures ReadPart(lib, h + x + tail) ==
            if lib.isUtf8(part) && (tail == "" || tail[0] == '_') then Some((part, Drop(tail, 1))) else None
  {
    var raw := h + x + tail;
    assert raw[..8] == h && raw[8..] == x + tail;
    assert Take(x + tail, 2 * size) == x;
    assert Drop(x + tail, 2 * size) == tail;
  }

  /** A narrow first part is read back and the loop moves on to the remaining parts. */
  lemma FirstPart(lib: TextLib, kp: Path)
    requires ReadsBack(lib) && Encodable(kp) && |kp[0]| < LIMIT && lib.isUtf8(kp[0])
    ensures ReadPart(lib, JoinParts(kp)) == Some((kp[0], Drop(Rest(kp), 1)))
  {
    assert kp[0] in kp;
    JoinShape(kp);
    Hex8Width(|kp[0]|);
    ReadField(lib, Hex8(|kp[0]|), |kp[0]|, HexBytes(kp[0]), kp[0], Rest(kp));
  }

  ghost predicate IsHex(s: string) { forall c | c in s :: exists d: nat :: d < 16 && c == HexDigit(d) }

  lemma {:induction false} BytesAreHex(b: Text)
    ensures IsHex(HexBytes(b))
  {
    if b != [] { BytesAreHex(b[1..]); }
  }

  lemma DigitsAreHex(n: nat)
    ensures IsHex(HexDigits(n)) && IsHex(Hex8(n))
  {
    OnlyHexDigits(n);
    var d := HexDigits(n);
    if |d| < 8 { ZerosAreHex(8 - |d|); }
  }

  lemma {:induction false} OnlyHexDigits(n: nat)
    ensures IsHex(HexDigits(n))
  {
    if n >= 16 { OnlyHexDigits(n / 16); }
  }

  lemma {:induction false} ZerosAreHex(n: nat)
    ensures IsHex(Zeros(n))
  {
    assert '0' == HexDigit(0);
    if n > 0 { ZerosAreHex(n - 1); }
  }

  lemma {:induction false} HexIsBytes(s: string, m: nat) returns (b: Text)
    requires IsHex(s) && |s| == 2 * m
    ensures HexBytes(b) == s && |b| == m
  {
    if m == 0 {
      b := [];
    } else {
      var hi := DigitOf(s, 0);
      var lo := DigitOf(s, 1);
      assert forall c | c in s[2..] :: c in s;
      var rest := HexIsBytes(s[2..], m - 1);
      var byte := ByteOf(hi, lo);
      b := [byte] + rest;
      FirstByteHex(byte, hi, lo, rest);
      assert s == [s[0], s[1]] + s[2..];
    }
  }

  lemma ByteOf(hi: nat, lo: nat) returns (byte: Byte)
    requires hi < 16 && lo < 16
    ensures byte / 16 == hi && byte % 16 == lo
  {
    ByteOfDigits(hi, lo);
    byte := 16 * hi + lo;
  }

  lemma FirstByteHex(byte: Byte, hi: nat, lo: nat, rest: Text)
    requires byte / 16 == hi && byte % 16 == lo
    ensures hi < 16 && lo < 16 && HexBytes([byte] + rest) == [HexDigit(hi), HexDigit(lo)] + HexBytes(rest)
  {
    assert ([byte] + rest)[1..] == rest;
  }

  lemma DigitOf(s: string, i: nat) returns (d: nat)
    requires IsHex(s) && i < |s|
    ensures d < 16 && s[i] == HexDigit(d)
  {
    assert s[i] in s;
    d :| d < 16 && s[i] == HexDigit(d);
  }

  lemma ByteOfDigits(hi: nat, lo: nat)
    requires hi < 16 && lo < 16
    ensures 16 * hi + lo < 256 && (16 * hi + lo) / 16 == hi && (16 * hi + lo) % 16 == lo
  {
  }

  /** A wide first part is misread: whatever the decoder returns does not start with it. */
  lemma WideFirstPart(lib: TextLib, kp: Path)
    requires ReadsBack(lib) && Encodable(kp) && |kp[0]| >= LIMIT
    ensures ReadPart(lib, JoinParts(kp)).Some? ==> |ReadPart(lib, JoinParts(kp)).value.0| < |kp[0]|
  {
    var n := |kp[0]|;
    JoinShape(kp);
    WidePrefix(n);
    var m :| 0 < m < n && |Hex8(m)| == 8 && Hex8(m) == Hex8(n)[..8];
    var x := Hex8(n)[8..] + HexBytes(kp[0]);
    StillHex(n, kp[0], 2 * m);
    var b := HexIsBytes(x[..2 * m], m);
    Resplit(Hex8(n)[..8], Hex8(n)[8..], HexBytes(kp[0]), Rest(kp), 2 * m);
    assert Hex8(n) == Hex8(n)[..8] + Hex8(n)[8..];
    ReadField(lib, Hex8(m), m, x[..2 * m], b, x[2 * m..] + Rest(kp));
  }

  lemma StillHex(n: nat, part: Text, k: nat)
    requires |Hex8(n)| >= 8 && k <= |Hex8(n)[8..] + HexBytes(part)|
    ensures IsHex((Hex8(n)[8..] + HexBytes(part))[..k])
  {
    DigitsAreHex(n);
    BytesAreHex(part);
    assert forall c | c in (Hex8(n)[8..] + HexBytes(part))[..k] :: c in Hex8(n) || c in HexBytes(part);
  }

  lemma Resplit(h: string, e: string, y: string, r: string, k: nat)
    requires k <= |e + y|
    ensures h + e + y + r == h + (e + y)[..k] + ((e + y)[k..] + r)
  {
    assert e + y == (e + y)[..k] + (e + y)[k..];
  }

  lemma {:induction false} PartsRoundTrip(lib: TextLib, kp: Path)
    requires ReadsBack(lib) && Encodable(kp) && AllUtf8(lib, kp)
    ensures DecodeParts(lib, JoinParts(kp)) == Some(kp) <==> Narrow(kp)
    decreases |kp|
  {
    var raw, others := JoinParts(kp), kp[1..];
    assert kp == [kp[0]] + others && kp[0] in kp;
    JoinShape(kp);
    assert raw != "";
    if |kp[0]| < LIMIT {
      FirstPart(lib, kp);
      assert DecodeParts(lib, raw) == Prepend([kp[0]], DecodeParts(lib, Drop(Rest(kp), 1)));
      if others == [] {
        assert Drop(Rest(kp), 1) == "";
      } else {
        assert forall part | part in others :: part in kp;
        PartsRoundTrip(lib, others);
        assert Drop(Rest(kp), 1) == JoinParts(others);
        assert Narrow(kp) <==> Narrow(others);
        assert Prepend([kp[0]], DecodeParts(lib, JoinParts(others))) == Some(kp) ==>
               DecodeParts(lib, JoinParts(others)).value == kp[1..];
      }
    } else {
      WideFirstPart(lib, kp);
    }
  }

  /** Decoding an encoded keypath gives it back exactly when every part is below 2^32 bytes:
      the length field is eight digits wide only up to there. */
  lemma KeypathRoundTrip(lib: TextLib, kp: Path)
    requires ReadsBack(lib) && Encodable(kp) && AllUtf8(lib, kp)
    ensures Encode(kp).Some?
    ensures Decode(lib, Encode(kp).value) == Some(kp) <==> Narrow(kp)
  {
    var name := Encode(kp).value;
    assert name == "k_" + JoinParts(kp) + ".npy";
    JoinShape(kp);
    assert name[..2] == "k_" && name[|name| - 4..] == ".npy" && name[2..|name| - 4] == JoinParts(kp);
    PartsRoundTrip(lib, kp);
  }

  // ---- primitives that read back exist ----

  function StrictInt(s: string): Option<int> {
    if s == "" || exists c :: c in s && HexValue(c) == 16 then None else Some(Number(s))
  }

  function Number(s: string): nat {
    if s == "" then 0 else 16 * Number(s[..|s| - 1]) + HexValue(s[|s| - 1])
  }

  function StrictHex(s: string): Option<Text> {
    if s == "" then Some([])
    else if |s| == 1 || HexValue(s[0]) == 16 || HexValue(s[1]) == 16 then None
    else match StrictHex(s[2..])
      case None => None
      case Some(b) => Some([16 * HexValue(s[0]) + HexValue(s[1])] + b)
  }

  function StrictLib(): TextLib { TextLib(StrictInt, StrictHex, (b: Text) => true) }

  lemma StrictReadsBack()
    ensures ReadsBack(StrictLib())
  {
    forall n: nat | |Hex8(n)| == 8 ensures StrictInt(Hex8(n)) == Some(n) {
      DigitsNumber(n);
      DigitsAreHex(n);
      forall c | c in Hex8(n) ensures HexValue(c) != 16 {
        var d: nat :| d < 16 && c == HexDigit(d);
        HexDigitValue(d);
      }
      if |HexDigits(n)| < 8 { LeadingZeros(8 - |HexDigits(n)|, HexDigits(n)); }
    }
    forall b: Text ensures StrictHex(HexBytes(b)) == Some(b) { StrictHexBytes(b); }
  }

  lemma {:induction false} DigitsNumber(n: nat)
    ensures Number(HexDigits(n)) == n
  {
    HexDigitValue(n % 16);
    if n >= 16 {
      DigitsNumber(n / 16);
      var s := HexDigits(n);
      assert s[..|s| - 1] == HexDigits(n / 16);
    } else {
      assert Number("") == 0;
      assert HexDigits(n)[..0] == "";
    }
  }

  lemma {:induction false} LeadingZeros(k: nat, s: string)
    ensures Number(Zeros(k) + s) == Number(s)
    decreases |s|, k
  {
    var z := Zeros(k) + s;
    if s != "" {
      assert z[..|z| - 1] == Zeros(k) + s[..|s| - 1];
      LeadingZeros(k, s[..|s| - 1]);
    } else if k > 0 {
      ZerosTail(k);
      assert z == Zeros(k) && z[..|z| - 1] == Zeros(k - 1) + "";
      LeadingZeros(k - 1, "");
    }
  }

  lemma {:induction false} ZerosTail(k: nat)
    requires k > 0
    ensures Zeros(k) == Zeros(k - 1) + "0"
  {
    if k > 1 { ZerosTail(k - 1); }
  }

  lemma StrictHexStep(hi: nat, lo: nat, rest: string)
    requires hi < 16 && lo < 16
    ensures StrictHex([HexDigit(hi), HexDigit(lo)] + rest) ==
            match StrictHex(rest) { case None => None case Some(b) => Some([16 * hi + lo] + b) }
  {
    HexDigitValue(hi);
    HexDigitValue(lo);
    StrictHexCons(HexDigit(hi), HexDigit(lo), rest);
  }

  lemma StrictHexCons(a: char, b: char, rest: string)
    requires HexValue(a) < 16 && HexValue(b) < 16
    ensures StrictHex([a, b] + rest) ==
            match StrictHex(rest) { case None => None case Some(bytes) => Some([16 * HexValue(a) + HexValue(b)] + bytes) }
  {
    assert ([a, b] + rest)[2..] == rest;
  }

  lemma {:induction false} StrictHexBytes(b: Text)
    ensures StrictHex(HexBytes(b)) == Some(b)
  {
    if b != [] {
      var hi, lo := b[0] / 16, b[0] % 16;
      StrictHexBytes(b[1..]);
      StrictHexStep(hi, lo, HexBytes(b[1..]));
      assert 16 * hi + lo == b[0] && [b[0]] + b[1..] == b;
      assert HexBytes(b) == [HexDigit(hi), HexDigit(lo)] + HexBytes(b[1..]);
    }
  }

  // ---- member names are injective ----

  lemma {:induction false} MoreDigits(m: nat, n: nat)
    requires m <= n
    ensures |HexDigits(m)| <= |HexDigits(n)|
  {
    if m >= 16 { MoreDigits(m / 16, n / 16); }
  }

  /** A longer part has a longer encoding. */
  lemma LongerPart(a: Text, b: Text)
    requires |a| < |b|
    ensures |EncodePart(a)| < |EncodePart(b)|
  {
    MoreDigits(|a|, |b|);
  }

  lemma PartInjective(a: Text, b: Text)
    requires EncodePart(a) == EncodePart(b)
    ensures a == b
  {
    if |a| < |b| { LongerPart(a, b); }
    if |b| < |a| { LongerPart(b, a); }
    DropCommon(Hex8(|a|), HexBytes(a), HexBytes(b));
    StrictHexBytes(a);
    StrictHexBytes(b);
  }

  /** The separator is no hexadecimal digit. */
  lemma NoSeparator(part: Text)
    ensures '_' !in EncodePart(part)
  {
    DigitsAreHex(|part|);
    BytesAreHex(part);
    assert IsHex(EncodePart(part));
    assert forall d: nat | d < 16 :: HexDigit(d) != '_';
  }

  /** What comes before the first separator, and what comes after. */
  lemma CutAtSeparator(x: string, u: string, y: string, v: string)
    requires '_' !in x && '_' !in y && x + u == y + v
    requires (u == "" || u[0] == '_') && (v == "" || v[0] == '_')
    ensures x == y && u == v
  {
    if |x| < |y| { NotShorter(x, u, y, v); }
    if |y| < |x| { NotShorter(y, v, x, u); }
    assert (x + u)[..|x|] == x && (y + v)[..|y|] == y;
    DropCommon(x, u, v);
  }

  lemma NotShorter(x: string, u: string, y: string, v: string)
    requires '_' !in y && x + u == y + v && (u == "" || u[0] == '_')
    ensures |x| >= |y|
  {
    forall i | 0 <= i < |y| ensures (y + v)[i] != '_' {
      assert (y + v)[i] == y[i] && y[i] in y;
    }
    assert u != "" ==> (x + u)[|x|] == u[0];
    assert |x + u| == |y + v|;
  }

  lemma {:induction false} JoinInjective(a: Path, b: Path)
    requires a != [] && b != [] && JoinParts(a) == JoinParts(b)
    ensures a == b
    decreases |a|
  {
    JoinShape(a);
    JoinShape(b);
    NoSeparator(a[0]);
    NoSeparator(b[0]);
    CutAtSeparator(EncodePart(a[0]), Rest(a), EncodePart(b[0]), Rest(b));
    PartInjective(a[0], b[0]);
    assert a == [a[0]] + a[1..] && b == [b[0]] + b[1..];
    if |a| > 1 {
      DropCommon("_", JoinParts(a[1..]), JoinParts(b[1..]));
      JoinInjective(a[1..], b[1..]);
    }
  }

  /** No two keypaths share a member name, however long their parts: the writer's collision
      branch is dead. */
  lemma EncodeInjective(a: Path, b: Path)
    requires Encodable(a) && Encodable(b) && Encode(a) == Encode(b)
    ensures a == b
  {
    var x, y := Encode(a).value, Encode(b).value;
    assert x[2..|x| - 4] == JoinParts(a) && y[2..|y| - 4] == JoinParts(b);
    JoinInjective(a, b);
  }
}
