/** The canonical `.npy` member: fixed preamble, padded header, raw array bytes. */
module NpyMember {
  import opened Basics

  const QUOTE: Byte := 39
  const COMMA: Byte := 44
  const SPACE: Byte := 32
  const OPEN: Byte := 40
  const CLOSE: Byte := 41
  const NEWLINE: Byte := 10

  // ---- str(int) and the shape text ----

  function Decimal(n: nat): (s: Text)
    ensures |s| >= 1 && forall b | b in s :: 48 <= b <= 57
  {
    if n < 10 then [48 + n] else Decimal(n / 10) + [48 + n % 10]
  }

  function Number(s: Text): int {
    if s == [] then 0 else 10 * Number(s[..|s| - 1]) + (s[|s| - 1] as int) - 48
  }

  /** ", ".join(...) */
  function JoinDims(shape: seq<nat>): Text
    requires shape != []
  {
    if |shape| == 1 then Decimal(shape[0]) else Decimal(shape[0]) + [COMMA, SPACE] + JoinDims(shape[1..])
  }

  function ShapeText(shape: seq<nat>): Text {
    if shape == [] then [OPEN, CLOSE]
    else if |shape| == 1 then [OPEN] + Decimal(shape[0]) + [COMMA, CLOSE]
    else [OPEN] + JoinDims(shape) + [CLOSE]
  }

  // ---- the member ----

  function Spaces(n: nat): (s: Text)
    ensures |s| == n
  {
    if n == 0 then [] else [SPACE] + Spaces(n - 1)
  }

  /** {'descr': */
  const HEAD: Text := [123, 39, 100, 101, 115, 99, 114, 39, 58, 32]

  /** , 'fortran_order': False, 'shape': */
  const MIDDLE: Text :=
    [44, 32, 39, 102, 111, 114, 116, 114, 97, 110, 95, 111, 114, 100, 101, 114, 39, 58, 32, 70, 97, 108, 115, 101, 44, 32, 39, 115, 104, 97, 112, 101, 39, 58, 32]

  /** , } */
  const FOOT: Text := [44, 32, 125]

  /** \x93NUMPY, version 1.0 */
  const MAGIC: Text := [0x93, 78, 85, 77, 80, 89, 1, 0]

  /** "{'descr': " + repr(descr) + ", 'fortran_order': False, 'shape': " + shape + ", }" */
  function Header(descr: Text, shape: seq<nat>): Text {
    HEAD + [QUOTE] + descr + [QUOTE] + MIDDLE + ShapeText(shape) + FOOT
  }

  /** (-((preamble_size + len(header) + 1) % 16)) % 16; % is Python's and Dafny's alike. */
  function Padding(headerLength: nat): nat { (-((10 + headerLength + 1) % 16)) % 16 }

  function HeaderBytes(descr: Text, shape: seq<nat>): (r: Text)
    ensures |r| == |Header(descr, shape)| + Padding(|Header(descr, shape)|) + 1 && r[|r| - 1] == NEWLINE
  {
    var header := Header(descr, shape);
    header + Spaces(Padding(|header|)) + [NEWLINE]
  }

  /** struct.pack("<H", n) */
  function Little16(n: nat): Text
    requires n < 0x1_0000
  {
    [n % 256, n / 256]
  }

  /** None where the source raises because the header does not fit the 16-bit field. */
  function Member(descr: Text, shape: seq<nat>, data: Text): Option<Text> {
    var header := HeaderBytes(descr, shape);
    if |header| > 0xFFFF then None else Some(MAGIC + Little16(|header|) + header + data)
  }

  /** repr puts the dtype text between quotes unescaped. */
  predicate Plain(descr: Text) { QUOTE !in descr }

  // ---- properties ----

  lemma Pieces(header: Text, data: Text, m: Text)
    requires |header| <= 0xFFFF && m == MAGIC + Little16(|header|) + header + data
    ensures |m| == 10 + |header| + |data|
    ensures (m[8] as int) + 256 * (m[9] as int) == |header|
    ensures m[10..10 + |header|] == header && m[10 + |header|..] == data
  {
    var pre := MAGIC + Little16(|header|);
    assert m == pre + (header + data) && |pre| == 10;
    assert m[8] == pre[8] && m[9] == pre[9];
  }

  /** Preamble and header fill whole 16-byte blocks with fewer than 16 padding bytes, and
      the length field says where the data starts. */
  lemma MemberAligned(descr: Text, shape: seq<nat>, data: Text)
    requires Member(descr, shape, data).Some?
    ensures var m, h := Member(descr, shape, data).value, |HeaderBytes(descr, shape)|;
            && (10 + h) % 16 == 0 && h <= 0xFFFF
            && Padding(|Header(descr, shape)|) < 16
            && |m| == 10 + h + |data|
            && (m[8] as int) + 256 * (m[9] as int) == h
            && m[10..10 + h] == HeaderBytes(descr, shape) && m[10 + h..] == data
            && HeaderBytes(descr, shape)[h - 1] == NEWLINE
  {
    var header := HeaderBytes(descr, shape);
    Pieces(header, data, Member(descr, shape, data).value);
    PaddingAligns(|Header(descr, shape)|);
  }

  lemma PaddingAligns(n: nat)
    ensures Padding(n) < 16 && (10 + n + Padding(n) + 1) % 16 == 0
  {
  }

  /** Two texts cut by their first separator agree piece by piece. */
  lemma {:induction false} CutAt(sep: Byte, a: Text, ra: Text, b: Text, rb: Text)
    requires sep !in a && sep !in b && a + [sep] + ra == b + [sep] + rb
    ensures a == b && ra == rb
  {
    var x, y, z := a + [sep] + ra, b + [sep] + rb, b + [sep];
    var first := z[0];
    assert y == z + rb && y[0] == first;
    if a == [] {
      assert x[0] == sep;
      assert b == [] || first in b;
      assert x[1..] == ra && y[1..] == rb;
    } else {
      assert x[0] == a[0] && a[0] in a;
      assert b == [] ==> first == sep;
      assert y[0] == b[0];
      assert x[1..] == a[1..] + [sep] + ra && y[1..] == b[1..] + [sep] + rb;
      CutAt(sep, a[1..], ra, b[1..], rb);
      assert a == [a[0]] + a[1..] && b == [b[0]] + b[1..];
    }
  }

  lemma {:induction false} DecimalNumber(n: nat)
    ensures Number(Decimal(n)) == n
  {
    var s := Decimal(n);
    if n >= 10 {
      assert s[..|s| - 1] == Decimal(n / 10);
      DecimalNumber(n / 10);
    } else {
      assert s[..0] == [] && Number([]) == 0;
    }
  }

  lemma DecimalInjective(m: nat, n: nat)
    requires Decimal(m) == Decimal(n)
    ensures m == n
  {
    DecimalNumber(m);
    DecimalNumber(n);
  }

  lemma {:induction false} DimsHaveNoClose(shape: seq<nat>)
    requires shape != []
    ensures CLOSE !in JoinDims(shape) && (COMMA in JoinDims(shape) <==> |shape| > 1)
  {
    assert CLOSE !in Decimal(shape[0]) && COMMA !in Decimal(shape[0]);
    if |shape| > 1 { DimsHaveNoClose(shape[1..]); }
  }

  lemma {:induction false} DimsInjective(a: seq<nat>, b: seq<nat>)
    requires a != [] && b != [] && JoinDims(a) == JoinDims(b)
    ensures a == b
  {
    DimsHaveNoClose(a);
    DimsHaveNoClose(b);
    assert |a| > 1 <==> |b| > 1;
    if |a| == 1 {
      DecimalInjective(a[0], b[0]);
    } else {
      var ra, rb := JoinDims(a[1..]), JoinDims(b[1..]);
      assert COMMA !in Decimal(a[0]) && COMMA !in Decimal(b[0]);
      assert JoinDims(a) == Decimal(a[0]) + [COMMA] + ([SPACE] + ra);
      assert JoinDims(b) == Decimal(b[0]) + [COMMA] + ([SPACE] + rb);
      CutAt(COMMA, Decimal(a[0]), [SPACE] + ra, Decimal(b[0]), [SPACE] + rb);
      assert ([SPACE] + ra)[1..] == ra && ([SPACE] + rb)[1..] == rb;
      DecimalInjective(a[0], b[0]);
      DimsInjective(a[1..], b[1..]);
      assert a == [a[0]] + a[1..] && b == [b[0]] + b[1..];
    }
  }

  lemma {:induction false} ShapeInjective(a: seq<nat>, b: seq<nat>)
    requires ShapeText(a) == ShapeText(b)
    ensures a == b
  {
    var ia, ib := Inside(a), Inside(b);
    InsideShape(a);
    InsideShape(b);
    assert ShapeText(a)[1..|ShapeText(a)| - 1] == ia;
    assert ShapeText(b)[1..|ShapeText(b)| - 1] == ib;
    if |a| == 1 && |b| == 1 {
      assert ia[..|ia| - 1] == Decimal(a[0]) && ib[..|ib| - 1] == Decimal(b[0]);
      DecimalInjective(a[0], b[0]);
    } else if |a| > 1 && |b| > 1 {
      DimsInjective(a, b);
    } else if |a| == 1 && |b| > 1 {
      DimsEnd(b);
    } else if |b| == 1 && |a| > 1 {
      DimsEnd(a);
    }
  }

  /** The text between the parentheses. */
  function Inside(shape: seq<nat>): Text {
    if shape == [] then [] else if |shape| == 1 then Decimal(shape[0]) + [COMMA] else JoinDims(shape)
  }

  lemma InsideShape(shape: seq<nat>)
    ensures ShapeText(shape) == [OPEN] + Inside(shape) + [CLOSE] && CLOSE !in Inside(shape)
    ensures Inside(shape) == [] <==> shape == []
  {
    if shape != [] {
      DimsHaveNoClose(shape);
      assert CLOSE !in Decimal(shape[0]);
      if |shape| == 1 { assert [OPEN] + Decimal(shape[0]) + [COMMA, CLOSE] == [OPEN] + Inside(shape) + [CLOSE]; }
    }
  }

  lemma {:induction false} DimsEnd(shape: seq<nat>)
    requires shape != []
    ensures var s := JoinDims(shape); |s| >= 1 && 48 <= s[|s| - 1] <= 57
  {
    if |shape| > 1 {
      DimsEnd(shape[1..]);
    } else {
      var s := Decimal(shape[0]);
      assert s[|s| - 1] in s;
    }
  }

  /** The dtype text, the shape and the raw bytes can be recovered from a member. */
  lemma MemberInjective(d1: Text, s1: seq<nat>, b1: Text, d2: Text, s2: seq<nat>, b2: Text)
    requires Plain(d1) && Plain(d2)
    requires Member(d1, s1, b1).Some? && Member(d1, s1, b1) == Member(d2, s2, b2)
    ensures d1 == d2 && s1 == s2 && b1 == b2
  {
    MemberAligned(d1, s1, b1);
    MemberAligned(d2, s2, b2);
    HeaderInjective(d1, s1, d2, s2);
  }

  lemma HeaderInjective(d1: Text, s1: seq<nat>, d2: Text, s2: seq<nat>)
    requires Plain(d1) && Plain(d2) && HeaderBytes(d1, s1) == HeaderBytes(d2, s2)
    ensures d1 == d2 && s1 == s2
  {
    HeaderShape(d1, s1);
    HeaderShape(d2, s2);
    InsideShape(s1);
    InsideShape(s2);
    CutTwice(HEAD + [QUOTE], MIDDLE + [OPEN], d1, Inside(s1), AfterShape(d1, s1), d2, Inside(s2), AfterShape(d2, s2));
    ShapeInjective(s1, s2);
  }

  lemma CutTwice(h: Text, m: Text, d1: Text, i1: Text, t1: Text, d2: Text, i2: Text, t2: Text)
    requires QUOTE !in d1 && QUOTE !in d2 && CLOSE !in i1 && CLOSE !in i2
    requires h + (d1 + [QUOTE] + (m + (i1 + [CLOSE] + t1))) == h + (d2 + [QUOTE] + (m + (i2 + [CLOSE] + t2)))
    ensures d1 == d2 && i1 == i2
  {
    var r1, r2 := m + (i1 + [CLOSE] + t1), m + (i2 + [CLOSE] + t2);
    DropCommon(h, d1 + [QUOTE] + r1, d2 + [QUOTE] + r2);
    CutAt(QUOTE, d1, r1, d2, r2);
    DropCommon(m, i1 + [CLOSE] + t1, i2 + [CLOSE] + t2);
    CutAt(CLOSE, i1, t1, i2, t2);
  }

  function AfterShape(descr: Text, shape: seq<nat>): Text {
    FOOT + Spaces(Padding(|Header(descr, shape)|)) + [NEWLINE]
  }

  lemma HeaderShape(descr: Text, shape: seq<nat>)
    ensures HeaderBytes(descr, shape) ==
            (HEAD + [QUOTE]) + (descr + [QUOTE] + ((MIDDLE + [OPEN]) + (Inside(shape) + [CLOSE] + AfterShape(descr, shape))))
  {
    InsideShape(shape);
    Reassociate(HEAD, descr, MIDDLE, Inside(shape), FOOT, Spaces(Padding(|Header(descr, shape)|)));
  }

  lemma Reassociate(h: Text, d: Text, m: Text, i: Text, f: Text, p: Text)
    ensures h + [QUOTE] + d + [QUOTE] + m + ([OPEN] + i + [CLOSE]) + f + p + [NEWLINE] ==
            (h + [QUOTE]) + (d + [QUOTE] + ((m + [OPEN]) + (i + [CLOSE] + (f + p + [NEWLINE]))))
  {
  }
}
