/** Exactly which member names the decoder accepts. */
module NameDecoding {
  import opened Basics
  import opened KeypathCodec

  /** The text primitives read nothing but what formatting writes. */
  ghost predicate ReadsOnly(lib: TextLib) {
    && (forall s | |s| == 8 && lib.parseInt(s).Some? :: lib.parseInt(s).value >= 0 && s == Hex8(lib.parseInt(s).value))
    && (forall h | lib.fromHex(h).Some? :: h == HexBytes(lib.fromHex(h).value))
  }

  /** A part that the eight-digit length field can describe. */
  ghost predicate Readable(lib: TextLib, part: Text) { part != [] && |part| < 0x1_0000_0000 && lib.isUtf8(part) }

  /** raw is the part's text, then nothing, or a separator and rest. */
  ghost predicate StartsWith(raw: string, part: Text, rest: string) {
    (raw == EncodePart(part) && rest == "") || raw == EncodePart(part) + "_" + rest
  }

  lemma ReadPieces(lib: TextLib, raw: string, part: Text, rest: string) returns (size: int)
    requires ReadPart(lib, raw) == Some((part, rest))
    ensures |raw| >= 8 && lib.parseInt(raw[..8]) == Some(size) && size != 0 && |raw| - 8 >= 2 * size
    ensures lib.fromHex(Take(raw[8..], 2 * size)) == Some(part) && lib.isUtf8(part)
    ensures var after := Drop(raw[8..], 2 * size); (after == "" || after[0] == '_') && rest == Drop(after, 1)
  {
    size := lib.parseInt(raw[..8]).value;
  }

  lemma ReadIsStart(lib: TextLib, raw: string, part: Text, rest: string)
    requires ReadsOnly(lib) && ReadPart(lib, raw) == Some((part, rest))
    ensures Readable(lib, part) && StartsWith(raw, part, rest)
  {
    var size := ReadPieces(lib, raw, part, rest);
    assert raw[..8] == Hex8(size);
    Hex8Width(size);
    var tail := raw[8..];
    assert Take(tail, 2 * size) == HexBytes(part);
    assert |part| == size;
    Pieces(raw, Hex8(size), HexBytes(part), tail, tail[2 * size..], rest);
  }

  lemma Pieces(raw: string, h: string, x: string, tail: string, after: string, rest: string)
    requires |raw| >= 8 && h == raw[..8] && tail == raw[8..] && |x| <= |tail| && x == tail[..|x|] && after == tail[|x|..]
    requires (after == "" || after[0] == '_') && rest == Drop(after, 1)
    ensures (raw == h + x && rest == "") || raw == h + x + "_" + rest
  {
    assert raw == h + tail && tail == x + after;
    assert h + (x + after) == h + x + after;
    if after != "" {
      assert after == "_" + after[1..];
      assert h + x + ("_" + rest) == h + x + "_" + rest;
    }
  }

  lemma StartIsRead(lib: TextLib, raw: string, part: Text, rest: string)
    requires ReadsBack(lib) && Readable(lib, part) && StartsWith(raw, part, rest)
    ensures ReadPart(lib, raw) == Some((part, rest))
  {
    var after := AfterPart(raw, part, rest);
    Hex8Width(|part|);
    ReadField(lib, Hex8(|part|), |part|, HexBytes(part), part, after);
  }

  lemma AfterPart(raw: string, part: Text, rest: string) returns (after: string)
    requires StartsWith(raw, part, rest)
    ensures raw == Hex8(|part|) + HexBytes(part) + after && (after == "" || after[0] == '_') && Drop(after, 1) == rest
  {
    if raw == EncodePart(part) && rest == "" {
      after := "";
      assert raw == raw + "";
    } else {
      after := "_" + rest;
      assert Hex8(|part|) + HexBytes(part) + after == Hex8(|part|) + HexBytes(part) + "_" + rest;
    }
  }

  /** raw are the parts' texts, separated, and maybe one more separator at the end. */
  ghost predicate IsReading(lib: TextLib, raw: string, kp: Path) {
    if kp == [] then raw == ""
    else (forall part | part in kp :: Readable(lib, part)) && (raw == JoinParts(kp) || raw == JoinParts(kp) + "_")
  }

  lemma ReadingNext(lib: TextLib, raw: string, part: Text, rest: string, more: Path)
    requires Readable(lib, part) && StartsWith(raw, part, rest) && IsReading(lib, rest, more)
    ensures IsReading(lib, raw, [part] + more)
  {
    var kp := [part] + more;
    assert kp[0] == part && kp[1..] == more;
    if more != [] {
      NonemptyReading(more);
      assert JoinParts(kp) == EncodePart(part) + "_" + JoinParts(more);
      assert EncodePart(part) + "_" + (JoinParts(more) + "_") == JoinParts(kp) + "_";
    } else {
      assert EncodePart(part) + "_" + "" == EncodePart(part) + "_";
    }
  }

  lemma NonemptyReading(kp: Path)
    requires kp != []
    ensures JoinParts(kp) != ""
  {
    Hex8Width(|kp[0]|);
  }

  lemma ReadingFirst(lib: TextLib, raw: string, kp: Path) returns (rest: string)
    requires kp != [] && IsReading(lib, raw, kp)
    ensures Readable(lib, kp[0]) && StartsWith(raw, kp[0], rest) && IsReading(lib, rest, kp[1..])
  {
    assert kp[0] in kp && forall part | part in kp[1..] :: part in kp;
    rest := JoinedRest(raw, kp);
  }

  lemma JoinedRest(raw: string, kp: Path) returns (rest: string)
    requires kp != [] && (raw == JoinParts(kp) || raw == JoinParts(kp) + "_")
    ensures StartsWith(raw, kp[0], rest)
    ensures if |kp| == 1 then rest == "" else rest == JoinParts(kp[1..]) || rest == JoinParts(kp[1..]) + "_"
  {
    if |kp| == 1 {
      rest := "";
      assert EncodePart(kp[0]) + "_" + "" == EncodePart(kp[0]) + "_";
    } else {
      var joined := JoinParts(kp[1..]);
      assert JoinParts(kp) == EncodePart(kp[0]) + "_" + joined;
      rest := if raw == JoinParts(kp) then joined else joined + "_";
      assert EncodePart(kp[0]) + "_" + (joined + "_") == EncodePart(kp[0]) + "_" + joined + "_";
    }
  }

  lemma {:induction false} PartsExactly(lib: TextLib, raw: string, kp: Path)
    requires ReadsBack(lib) && ReadsOnly(lib)
    ensures DecodeParts(lib, raw) == Some(kp) <==> IsReading(lib, raw, kp)
    decreases |raw|
  {
    if raw == "" {
      if kp != [] { NonemptyReading(kp); }
    } else if DecodeParts(lib, raw) == Some(kp) {
      var part, rest := DecodedFirst(lib, raw, kp);
      ReadIsStart(lib, raw, part, rest);
      PartsExactly(lib, rest, kp[1..]);
      ReadingNext(lib, raw, part, rest, kp[1..]);
    } else if IsReading(lib, raw, kp) {
      var rest := ReadingFirst(lib, raw, kp);
      StartIsRead(lib, raw, kp[0], rest);
      PartsExactly(lib, rest, kp[1..]);
      DecodesOn(lib, raw, kp[0], rest, kp);
    }
  }

  lemma DecodedFirst(lib: TextLib, raw: string, kp: Path) returns (part: Text, rest: string)
    requires raw != "" && DecodeParts(lib, raw) == Some(kp)
    ensures ReadPart(lib, raw) == Some((part, rest)) && |rest| < |raw|
    ensures kp != [] && kp == [part] + kp[1..] && DecodeParts(lib, rest) == Some(kp[1..])
  {
    part, rest := ReadPart(lib, raw).value.0, ReadPart(lib, raw).value.1;
    assert kp == [part] + kp[1..];
  }

  lemma DecodesOn(lib: TextLib, raw: string, part: Text, rest: string, kp: Path)
    requires raw != "" && ReadPart(lib, raw) == Some((part, rest)) && kp != [] && kp[0] == part
    requires DecodeParts(lib, rest) == Some(kp[1..])
    ensures DecodeParts(lib, raw) == Some(kp)
  {
    assert kp == [part] + kp[1..];
  }

  /** With primitives that read exactly what formatting writes, the decoder accepts the names of
      keypaths with parts below 2^32 bytes of UTF-8, the same names with one more underscore
      before the suffix, and the empty name k_.npy for the empty keypath. */
  lemma DecodesExactly(lib: TextLib, name: string, kp: Path)
    requires ReadsBack(lib) && ReadsOnly(lib)
    ensures Decode(lib, name) == Some(kp) <==>
            if kp == [] then name == "k_.npy"
            else (forall part | part in kp :: Readable(lib, part)) &&
                 (Encode(kp) == Some(name) || name == "k_" + JoinParts(kp) + "_.npy")
  {
    if Body(name).Some? {
      var raw := Body(name).value;
      NameOfBody(name, raw);
      PartsExactly(lib, raw, kp);
      SameBody(name, raw, kp);
    } else {
      NoBody(name, kp);
    }
  }

  lemma NameOfBody(name: string, raw: string)
    requires Body(name) == Some(raw)
    ensures name == "k_" + raw + ".npy"
  {
    var n := |name|;
    assert name == name[..2] + name[2..n - 4] + name[n - 4..];
  }

  lemma SameBody(name: string, raw: string, kp: Path)
    requires Body(name) == Some(raw) && name == "k_" + raw + ".npy"
    ensures name == "k_.npy" <==> raw == ""
    ensures kp != [] ==> (name == "k_" + JoinParts(kp) + ".npy" <==> raw == JoinParts(kp))
    ensures kp != [] ==> (name == "k_" + JoinParts(kp) + "_.npy" <==> raw == JoinParts(kp) + "_")
  {
    EmptyBody();
    if kp != [] { JoinBodies(JoinParts(kp)); }
  }

  lemma BodyOf(raw: string)
    ensures Body("k_" + raw + ".npy") == Some(raw)
  {
    var name := "k_" + raw + ".npy";
    assert name[..2] == "k_" && name[|name| - 4..] == ".npy" && name[2..|name| - 4] == raw;
  }

  lemma EmptyBody()
    ensures Body("k_.npy") == Some("")
  {
    BodyOf("");
    assert "k_" + "" + ".npy" == "k_.npy";
  }

  lemma JoinBodies(joined: string)
    ensures Body("k_" + joined + ".npy") == Some(joined) && Body("k_" + joined + "_.npy") == Some(joined + "_")
  {
    BodyOf(joined);
    BodyOf(joined + "_");
    assert "k_" + (joined + "_") + ".npy" == "k_" + joined + "_.npy";
  }

  lemma NoBody(name: string, kp: Path)
    requires Body(name).None?
    ensures name != "k_.npy"
    ensures kp != [] ==> name != "k_" + JoinParts(kp) + ".npy" && name != "k_" + JoinParts(kp) + "_.npy"
  {
    EmptyBody();
    if kp != [] { JoinBodies(JoinParts(kp)); }
  }

  // ---- such primitives exist ----

  predicate HexText(s: string) { forall c | c in s :: HexValue(c) < 16 }

  lemma {:induction false} NumberBelow(s: string)
    requires HexText(s)
    ensures Number(s) < Pow16(|s|)
  {
    if s != "" {
      assert s[|s| - 1] in s && forall c | c in s[..|s| - 1] :: c in s;
      NumberBelow(s[..|s| - 1]);
    }
  }

  lemma HexValueInjective(a: char, b: char)
    requires HexValue(a) == HexValue(b) < 16
    ensures a == b
  {
  }

  lemma {:induction false} NumberInjective(a: string, b: string)
    requires HexText(a) && HexText(b) && |a| == |b| && Number(a) == Number(b)
    ensures a == b
    decreases |a|
  {
    if a != "" {
      var x, y := a[..|a| - 1], b[..|b| - 1];
      assert a[|a| - 1] in a && b[|b| - 1] in b && (forall c | c in x :: c in a) && (forall c | c in y :: c in b);
      NumberInjective(x, y);
      HexValueInjective(a[|a| - 1], b[|b| - 1]);
      assert a == x + [a[|a| - 1]] && b == y + [b[|b| - 1]];
    }
  }

  lemma EightDigits(s: string)
    requires |s| == 8 && HexText(s)
    ensures s == Hex8(Number(s))
  {
    NumberBelow(s);
    assert Pow16(8) == 0x1_0000_0000 by { assert Pow16(4) == 0x1_0000; }
    var n := Number(s);
    Hex8Width(n);
    StrictReadsBack();
    assert StrictLib().parseInt(Hex8(n)) == Some(n);
    NumberInjective(s, Hex8(n));
  }

  lemma {:induction false} HexTextBytes(h: string)
    requires StrictHex(h).Some?
    ensures h == HexBytes(StrictHex(h).value)
    decreases |h|
  {
    if h != "" {
      HexTextBytes(h[2..]);
      var b := StrictHex(h[2..]).value;
      var byte := 16 * HexValue(h[0]) + HexValue(h[1]);
      FirstByteHex(byte, HexValue(h[0]), HexValue(h[1]), b);
      DigitBack(h[0]);
      DigitBack(h[1]);
      assert h == [h[0], h[1]] + h[2..];
    }
  }

  lemma DigitBack(c: char)
    requires HexValue(c) < 16
    ensures HexDigit(HexValue(c)) == c
  {
    HexDigitValue(HexValue(c));
    HexValueInjective(HexDigit(HexValue(c)), c);
  }

  /** The strict hexadecimal reader is one. */
  lemma StrictReadsOnly()
    ensures ReadsBack(StrictLib()) && ReadsOnly(StrictLib())
  {
    StrictReadsBack();
    forall s: string | |s| == 8 && StrictInt(s).Some? ensures s == Hex8(StrictInt(s).value) { EightDigits(s); }
    forall h: string | StrictHex(h).Some? ensures h == HexBytes(StrictHex(h).value) { HexTextBytes(h); }
  }
}
