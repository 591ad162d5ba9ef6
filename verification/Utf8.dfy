/** Generalised UTF-8: the encoder of cpp/src/json.cpp:310-326, its reader at 440-475,
    and the well-formed byte sequences of Table 3-7 of the Unicode Standard. The source's
    shifts and masks pick out disjoint bit groups, so they are written as division,
    remainder and addition. */
module Utf8 {
  import opened Bytes

  type codepoint = c: int | 0 <= c < 0x110000

  predicate High(c: int) { 0xD800 <= c <= 0xDBFF }

  predicate Low(c: int) { 0xDC00 <= c <= 0xDFFF }

  /** A Unicode scalar value: a code point that is no surrogate. */
  predicate Scalar(c: int) { 0 <= c < 0x110000 && !High(c) && !Low(c) }

  predicate Continuation(b: byte) { 0x80 <= b <= 0xBF }

  /** What `append_utf8` pushes for one code point, surrogates included. */
  function Encode(c: codepoint): (r: bytes)
    ensures 1 <= |r| <= 4
  {
    var c6 := c / 64;
    var c12 := c6 / 64;
    if c < 0x80 then [c]
    else if c < 0x800 then [0xC0 + c6, 0x80 + c % 64]
    else if c < 0x10000 then [0xE0 + c12, 0x80 + c6 % 64, 0x80 + c % 64]
    else [0xF0 + c12 / 64, 0x80 + c12 % 64, 0x80 + c6 % 64, 0x80 + c % 64]
  }

  function EncodeAll(cs: seq<codepoint>): bytes {
    if cs == [] then [] else Encode(cs[0]) + EncodeAll(cs[1..])
  }

  datatype Read = Read(point: codepoint, length: nat)

  /** Bits put after other bits can be taken apart again. */
  lemma SixBits(high: int, low: int)
    requires 0 <= low < 64
    ensures (64 * high + low) / 64 == high && (64 * high + low) % 64 == low
  {
  }

  /** The bits read so far with those of one more continuation byte behind them. */
  function Extend(high: int, next: int): int {
    64 * high + (next - 0x80)
  }

  /** One call of `next_code_point` on the unread part of the text: the code point, and how
      far the index moves. */
  function NextCodePoint(s: bytes): (r: Read)
    requires s != []
    ensures 1 <= r.length <= |s|
  {
    var lead: int := s[0];
    if lead < 0x80 then Read(lead, 1)
    else if 0xC0 <= lead <= 0xDF && |s| > 1 && Continuation(s[1]) then
      var v := Extend(lead - 0xC0, s[1]);
      Read(if 0x80 <= v then v else 0xFFFD, 2)
    else if 0xE0 <= lead <= 0xEF && |s| > 2 && Continuation(s[1]) && Continuation(s[2]) then
      var v := Extend(Extend(lead - 0xE0, s[1]), s[2]);
      Read(if 0x800 <= v then v else 0xFFFD, 3)
    else if 0xF0 <= lead <= 0xF7 && |s| > 3
            && Continuation(s[1]) && Continuation(s[2]) && Continuation(s[3]) then
      var v := Extend(Extend(Extend(lead - 0xF0, s[1]), s[2]), s[3]);
      Read(if 0x10000 <= v <= 0x10FFFF then v else 0xFFFD, 4)
    else Read(0xFFFD, 1)
  }

  /** The reader undoes the writer, for every code point and whatever follows. */
  lemma NextReadsEncoded(c: codepoint, rest: bytes)
    ensures NextCodePoint(Encode(c) + rest) == Read(c, |Encode(c)|)
  {
    var s := Encode(c) + rest;
    var e := Encode(c);
    assert forall i | 0 <= i < |e| :: s[i] == e[i];
  }

  /** Reading a whole text, one code point after another. */
  function DecodeAll(s: bytes): seq<codepoint>
    decreases |s|
  {
    if s == [] then [] else var r := NextCodePoint(s); [r.point] + DecodeAll(s[r.length..])
  }

  lemma {:induction false} DecodeEncoded(cs: seq<codepoint>)
    ensures DecodeAll(EncodeAll(cs)) == cs
  {
    if cs != [] {
      NextReadsEncoded(cs[0], EncodeAll(cs[1..]));
      Dropped(Encode(cs[0]), EncodeAll(cs[1..]));
      DecodeEncoded(cs[1..]);
    }
  }

  lemma {:induction false} EncodeAllConcat(a: seq<codepoint>, b: seq<codepoint>)
    ensures EncodeAll(a + b) == EncodeAll(a) + EncodeAll(b)
  {
    if a == [] {
      assert a + b == b;
    } else {
      EncodeAllConcat(a[1..], b);
      assert (a + b)[0] == a[0] && (a + b)[1..] == a[1..] + b;
      Assoc(Encode(a[0]), EncodeAll(a[1..]), EncodeAll(b));
    }
  }

  lemma LeadOrder(a: codepoint, b: codepoint)
    requires a < b
    ensures Encode(a)[0] < Encode(b)[0] || (Encode(a)[0] == Encode(b)[0] && |Encode(a)| == |Encode(b)| > 1)
  {
  }

  /** Two different code points are told apart by their encodings at a byte both have, in
      the order of the code points. */
  lemma EncodeOrder(a: codepoint, b: codepoint) returns (k: nat)
    requires a < b
    ensures k < |Encode(a)| && k < |Encode(b)|
    ensures Encode(a)[..k] == Encode(b)[..k] && Encode(a)[k] < Encode(b)[k]
  {
    var x, y := Encode(a), Encode(b);
    LeadOrder(a, b);
    if x[0] < y[0] { k := 0; return; }
    if x[1] < y[1] { assert x[..1] == y[..1]; k := 1; return; }
    assert x[1] == y[1];
    if x[2] < y[2] { assert x[..2] == y[..2]; k := 2; return; }
    assert x[2] == y[2];
    assert x[..3] == y[..3];
    k := 3;
  }

  /** Sorting keys by bytes, as the native serialiser does, is sorting them by code points,
      as Python's `sort_keys` does. */
  lemma {:induction false} ByteOrderIsCodePointOrder(a: seq<codepoint>, b: seq<codepoint>)
    ensures LexLess(EncodeAll(a), EncodeAll(b)) == LexLess(a, b)
  {
    if a == [] || b == [] {
    } else if a[0] == b[0] {
      ByteOrderIsCodePointOrder(a[1..], b[1..]);
      LexCommonPrefix(Encode(a[0]), EncodeAll(a[1..]), EncodeAll(b[1..]));
    } else if a[0] < b[0] {
      FirstDifferenceDecides(a, b);
    } else {
      FirstDifferenceDecides(b, a);
      if LexLess(EncodeAll(a), EncodeAll(b)) {
        LexTransitive(EncodeAll(a), EncodeAll(b), EncodeAll(a));
        LexIrreflexive(EncodeAll(a));
      }
    }
  }

  lemma FirstDifferenceDecides(a: seq<codepoint>, b: seq<codepoint>)
    requires a != [] && b != [] && a[0] < b[0]
    ensures LexLess(EncodeAll(a), EncodeAll(b))
  {
    var k := EncodeOrder(a[0], b[0]);
    DifferenceDecides(Encode(a[0]), EncodeAll(a[1..]), Encode(b[0]), EncodeAll(b[1..]), k);
  }

  lemma DifferenceDecides(x: bytes, s: bytes, y: bytes, t: bytes, k: nat)
    requires k < |x| && k < |y| && x[..k] == y[..k] && x[k] < y[k]
    ensures LexLess(x + s, y + t)
  {
    var p := x[..k];
    assert x + s == p + (x[k..] + s) && y + t == p + (y[k..] + t);
    LexCommonPrefix(p, x[k..] + s, y[k..] + t);
  }

  // ----- Table 3-7 and well-formed text

  /** The rows of Table 3-7: the well-formed byte sequences of a single character. */
  predicate Unit(m: bytes) {
    || (|m| == 1 && m[0] <= 0x7F)
    || (|m| == 2 && 0xC2 <= m[0] <= 0xDF && Continuation(m[1]))
    || (|m| == 3 && m[0] == 0xE0 && 0xA0 <= m[1] <= 0xBF && Continuation(m[2]))
    || (|m| == 3 && 0xE1 <= m[0] <= 0xEC && Continuation(m[1]) && Continuation(m[2]))
    || (|m| == 3 && m[0] == 0xED && 0x80 <= m[1] <= 0x9F && Continuation(m[2]))
    || (|m| == 3 && 0xEE <= m[0] <= 0xEF && Continuation(m[1]) && Continuation(m[2]))
    || (|m| == 4 && m[0] == 0xF0 && 0x90 <= m[1] <= 0xBF && Continuation(m[2]) && Continuation(m[3]))
    || (|m| == 4 && 0xF1 <= m[0] <= 0xF3 && Continuation(m[1]) && Continuation(m[2]) && Continuation(m[3]))
    || (|m| == 4 && m[0] == 0xF4 && 0x80 <= m[1] <= 0x8F && Continuation(m[2]) && Continuation(m[3]))
  }

  /** The table lists exactly the encodings of scalar values. */
  lemma UnitIsScalarEncoding(m: bytes)
    ensures Unit(m) <==> exists c: codepoint :: Scalar(c) && m == Encode(c)
  {
    if Unit(m) {
      var c := NextCodePoint(m).point;
      assert Scalar(c) && m == Encode(c) by { UnitDecodes(m); }
    }
    forall c: codepoint | Scalar(c) && m == Encode(c)
      ensures Unit(m)
    {
      EncodedScalarIsUnit(c);
    }
  }

  lemma UnitDecodes(m: bytes)
    requires Unit(m)
    ensures Scalar(NextCodePoint(m).point) && m == Encode(NextCodePoint(m).point)
    ensures NextCodePoint(m).length == |m|
  {
    if |m| == 2 {
      TwoBytes(m[0] - 0xC0, m[1]);
    } else if |m| == 3 {
      ThreeBytes(m[0] - 0xE0, m[1], m[2]);
    } else if |m| == 4 {
      FourBytes(m[0] - 0xF0, m[1], m[2], m[3]);
    }
  }

  lemma TwoBytes(lead: int, b1: byte)
    requires 2 <= lead < 32 && Continuation(b1)
    ensures 0x80 <= Extend(lead, b1) < 0x800 && Encode(Extend(lead, b1)) == [0xC0 + lead, b1]
  {
    SixBits(lead, b1 - 0x80);
  }

  lemma ThreeBytes(lead: int, b1: byte, b2: byte)
    requires 0 <= lead < 16 && Continuation(b1) && Continuation(b2)
    requires lead > 0 || b1 >= 0xA0
    ensures 0x800 <= Extend(Extend(lead, b1), b2) < 0x10000
    ensures Encode(Extend(Extend(lead, b1), b2)) == [0xE0 + lead, b1, b2]
    ensures lead != 13 || b1 <= 0x9F ==> Scalar(Extend(Extend(lead, b1), b2))
  {
    SixBits(lead, b1 - 0x80);
    SixBits(Extend(lead, b1), b2 - 0x80);
  }

  lemma FourBytes(lead: int, b1: byte, b2: byte, b3: byte)
    requires 0 <= lead < 5 && Continuation(b1) && Continuation(b2) && Continuation(b3)
    requires (lead > 0 || b1 >= 0x90) && (lead < 4 || b1 <= 0x8F)
    ensures 0x10000 <= Extend(Extend(Extend(lead, b1), b2), b3) < 0x110000
    ensures Encode(Extend(Extend(Extend(lead, b1), b2), b3)) == [0xF0 + lead, b1, b2, b3]
  {
    var x, y := Extend(lead, b1), Extend(Extend(lead, b1), b2);
    SixBits(lead, b1 - 0x80);
    SixBits(x, b2 - 0x80);
    SixBits(y, b3 - 0x80);
    FourByteRange(lead, b1, b2, b3);
    FourSixes(Extend(y, b3), y, x, lead, [b1, b2, b3]);
  }

  lemma FourByteRange(lead: int, b1: byte, b2: byte, b3: byte)
    requires 0 <= lead < 5 && Continuation(b1) && Continuation(b2) && Continuation(b3)
    requires (lead > 0 || b1 >= 0x90) && (lead < 4 || b1 <= 0x8F)
    ensures 0x10000 <= Extend(Extend(Extend(lead, b1), b2), b3) < 0x110000
  {
  }

  lemma FourSixes(c: codepoint, y: int, x: int, lead: int, tail: bytes)
    requires c >= 0x10000 && |tail| == 3 && 0 <= lead < 5
    requires c / 64 == y && y / 64 == x && x / 64 == lead
    requires tail[0] as int == 0x80 + x % 64 && tail[1] as int == 0x80 + y % 64 && tail[2] as int == 0x80 + c % 64
    ensures Encode(c) == [0xF0 + lead] + tail
  {
  }

  lemma EncodedScalarIsUnit(c: codepoint)
    requires Scalar(c)
    ensures Unit(Encode(c))
  {
  }

  /** The length of the character the text begins with; 0 when it begins with none. */
  function UnitLength(s: bytes): (n: nat)
    ensures n <= |s|
    ensures n > 0 ==> Unit(s[..n])
  {
    if s == [] then 0
    else
      var n := NextCodePoint(s).length;
      if Unit(s[..n]) then n else 0
  }

  lemma UnitLengthFindsUnit(m: bytes, s: bytes)
    requires Unit(m) && m <= s
    ensures UnitLength(s) == |m|
  {
    assert m == s[..|m|];
    assert NextCodePoint(s).length == |m|;
  }

  /** Well-formed UTF-8: a sequence of characters with nothing left over. */
  predicate WellFormed(s: bytes)
    decreases |s|
  {
    s == [] || (var n := UnitLength(s); n > 0 && WellFormed(s[n..]))
  }

  lemma {:induction false} WellFormedPrepend(c: codepoint, s: bytes)
    requires Scalar(c)
    ensures WellFormed(Encode(c) + s) == WellFormed(s)
  {
    EncodedScalarIsUnit(c);
    var t := Encode(c) + s;
    UnitLengthFindsUnit(Encode(c), t);
    assert t[|Encode(c)|..] == s;
  }

  /** Well-formed text is the encoding of a sequence of scalar values. */
  lemma {:induction false} WellFormedIsEncoding(s: bytes)
    ensures WellFormed(s)
            <==> exists cs: seq<codepoint> :: (forall i | 0 <= i < |cs| :: Scalar(cs[i])) && s == EncodeAll(cs)
  {
    if WellFormed(s) { var cs := Characters(s); }
    forall cs: seq<codepoint> | (forall i | 0 <= i < |cs| :: Scalar(cs[i])) && s == EncodeAll(cs)
      ensures WellFormed(s)
    {
      ScalarsAreWellFormed(cs);
    }
  }

  lemma {:induction false} Characters(s: bytes) returns (cs: seq<codepoint>)
    requires WellFormed(s)
    ensures (forall i | 0 <= i < |cs| :: Scalar(cs[i])) && s == EncodeAll(cs)
    decreases |s|
  {
    cs := [];
    if s != [] {
      var n := UnitLength(s);
      var m := s[..n];
      var tail := Characters(s[n..]);
      assert s == m + s[n..];
      UnitDecodes(m);
      cs := [NextCodePoint(m).point] + tail;
      assert cs[1..] == tail;
    }
  }

  lemma {:induction false} ScalarsAreWellFormed(cs: seq<codepoint>)
    requires forall i | 0 <= i < |cs| :: Scalar(cs[i])
    ensures WellFormed(EncodeAll(cs))
  {
    if cs != [] {
      ScalarsAreWellFormed(cs[1..]);
      WellFormedPrepend(cs[0], EncodeAll(cs[1..]));
    }
  }

  lemma {:induction false} AsciiIsWellFormed(s: bytes)
    requires Ascii(s)
    ensures WellFormed(s)
    decreases |s|
  {
    if s != [] {
      UnitLengthFindsUnit(s[..1], s);
      AsciiIsWellFormed(s[1..]);
    }
  }

  lemma {:induction false} WellFormedConcat(a: bytes, b: bytes)
    requires WellFormed(a)
    ensures WellFormed(a + b) == WellFormed(b)
    decreases |a|
  {
    if a == [] {
      assert a + b == b;
    } else {
      WellFormedConcat(a[UnitLength(a)..], b);
      SameFirstUnit(a, b);
    }
  }

  lemma SameFirstUnit(a: bytes, b: bytes)
    requires UnitLength(a) > 0
    ensures UnitLength(a + b) == UnitLength(a) && (a + b)[UnitLength(a)..] == a[UnitLength(a)..] + b
  {
    var n := UnitLength(a);
    assert a[..n] == (a + b)[..n];
    UnitLengthFindsUnit(a[..n], a + b);
  }

  /** WTF-8: code points are encoded one by one and no high surrogate is directly followed
      by a low one. */
  predicate NoPair(cs: seq<codepoint>) {
    forall i | 0 <= i < |cs| - 1 :: !(High(cs[i]) && Low(cs[i + 1]))
  }

  ghost predicate Wtf8(s: bytes) {
    exists cs: seq<codepoint> :: NoPair(cs) && s == EncodeAll(cs)
  }

  lemma Wtf8Decodes(s: bytes)
    requires Wtf8(s)
    ensures NoPair(DecodeAll(s)) && EncodeAll(DecodeAll(s)) == s
  {
    var cs: seq<codepoint> :| NoPair(cs) && s == EncodeAll(cs);
    DecodeEncoded(cs);
  }
}
