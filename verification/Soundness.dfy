/** Every well-formed text the parser accepts is a text of the grammar. The lemmas build the
    syntax tree; that the parser returned its meaning follows from `Completeness`. */
module Soundness {
  import opened Options
  import opened Bytes
  import opened Utf8
  import opened Json
  import opened Grammar
  import opened Reader
  import opened Completeness

  // ----- Where well-formed text can be cut

  lemma AsciiPrefix(a: bytes, s: bytes)
    requires Ascii(a) && a <= s
    ensures WellFormed(s) == WellFormed(s[|a|..]) && s == a + s[|a|..]
  {
    AsciiIsWellFormed(a);
    assert s == a + s[|a|..];
    WellFormedConcat(a, s[|a|..]);
  }

  lemma AsciiByte(s: bytes)
    requires s != [] && s[0] < 0x80
    ensures WellFormed(s) == WellFormed(s[1..]) && s == [s[0]] + s[1..]
  {
    AsciiPrefix([s[0]], s);
  }

  lemma {:induction false} SkippedSpace(s: bytes) returns (ws: bytes)
    requires WellFormed(s)
    ensures AllSpace(ws) && s == ws + SkipSpace(s) && WellFormed(SkipSpace(s))
  {
    ws := [];
    if s != [] && IsSpace(s[0]) {
      AsciiByte(s);
      var tail := SkippedSpace(s[1..]);
      ws := [s[0]] + tail;
      Assoc([s[0]], tail, SkipSpace(s));
    }
  }

  // ----- Strings

  lemma PlainUnit(s: bytes)
    requires WellFormed(s) && s != [] && PlainByte(s[0])
    ensures var n := UnitLength(s);
            var c := NextCodePoint(s[..n]).point;
            && n > 0 && WellFormed(s[n..]) && ItemShaped(Plain(c)) && Encode(c) == s[..n]
  {
    var n := UnitLength(s);
    UnitDecodes(s[..n]);
  }

  lemma HexPrefix(s: bytes)
    requires Hex4(s).Some?
    ensures |s| >= 4 && AllHex(s[..4]) && Ascii(s[..4])
  {
  }

  /** The text of a `\u` escape is ASCII, and is taken off the front. */
  lemma UnicodeIsItem(s: bytes)
    requires WellFormed(s) && |s| >= 2 && s[0] == BACKSLASH && s[1] == 0x75 && Hex4(s[2..]).Some?
    ensures |s| >= 6 && ItemShaped(Unicode(s[2..6])) && ItemText(Unicode(s[2..6])) == s[..6] && WellFormed(s[6..])
  {
    HexPrefix(s[2..]);
    assert s[2..][..4] == s[2..6];
    assert s[..6] == [BACKSLASH, 0x75] + s[2..6];
    AsciiPrefix(s[..6], s);
  }

  lemma EscapeIsItem(s: bytes)
    requires WellFormed(s) && |s| >= 2 && s[0] == BACKSLASH && Escaped(s[1]).Some?
    ensures ItemText(Escape(s[1])) == s[..2] && WellFormed(s[2..])
  {
    AsciiPrefix(s[..2], s);
  }

  lemma EscapeLengths(s: bytes)
    requires BodyStep(s).Push? && s[0] == BACKSLASH
    ensures |s| >= 2
    ensures s[1] != 0x75 ==> BodyStep(s).length == 2 && Escaped(s[1]).Some?
    ensures s[1] == 0x75 ==> |s| >= 6 && Hex4(s[2..]).Some?
    ensures s[1] == 0x75 ==> BodyStep(s).length == 6 || (BodyStep(s).length == 12 && LowAfter(s[6..]).Some?)
  {
    if s[1] == 0x75 {
      HexPrefix(s[2..]);
      assert s[2..][4..] == s[6..];
    }
  }

  lemma PlainIsItem(s: bytes, out: bytes) returns (i: Item)
    requires WellFormed(s) && ReadBody(s, out).Ok? && s[0] != QUOTE && s[0] != BACKSLASH
    ensures var n := UnitLength(s);
            && 0 < n <= |s| && WellFormed(s[n..])
            && ItemShaped(i) && ItemText(i) == s[..n]
            && ReadBody(s, out) == ReadBody(s[n..], out + s[..n])
  {
    PlainUnit(s);
    var n := UnitLength(s);
    i := Plain(NextCodePoint(s[..n]).point);
    PlainIsPushed(s, n, i.c, out);
  }

  lemma PlainIsPushed(s: bytes, n: nat, c: codepoint, out: bytes)
    requires n <= |s| && ItemShaped(Plain(c)) && Encode(c) == s[..n]
    ensures ReadBody(s, out) == ReadBody(s[n..], out + s[..n])
  {
    PlainPointIsPlainBytes(c);
    PlainBytesArePushed(s[..n], s[n..], out);
    assert s == s[..n] + s[n..];
  }

  lemma {:induction false} BodyHasSource(s: bytes, out: bytes) returns (items: seq<Item>)
    requires WellFormed(s) && ReadBody(s, out).Ok?
    ensures ItemsShaped(items) && s == ItemsText(items) + ([QUOTE] + ReadBody(s, out).rest)
    ensures WellFormed(ReadBody(s, out).rest)
    decreases |s|, 1
  {
    var rest := ReadBody(s, out).rest;
    var tail: seq<Item>;
    if s[0] == QUOTE {
      AsciiByte(s);
      items := [];
      assert ItemsText(items) + ([QUOTE] + rest) == [QUOTE] + rest;
    } else if s[0] != BACKSLASH {
      var n := UnitLength(s);
      var i := PlainIsItem(s, out);
      tail := BodyHasSource(s[n..], out + s[..n]);
      items := Prepended(i, tail, s, n, rest);
    } else {
      items := EscapeHasSource(s, out);
    }
  }

  lemma {:induction false} EscapeHasSource(s: bytes, out: bytes) returns (items: seq<Item>)
    requires WellFormed(s) && ReadBody(s, out).Ok? && s[0] == BACKSLASH
    ensures ItemsShaped(items) && s == ItemsText(items) + ([QUOTE] + ReadBody(s, out).rest)
    ensures WellFormed(ReadBody(s, out).rest)
    decreases |s|, 0
  {
    var rest := ReadBody(s, out).rest;
    var n, now := BodyStep(s).length, out + BodyStep(s).piece;
    EscapeLengths(s);
    if s[1] != 0x75 {
      EscapeIsItem(s);
      var tail := BodyHasSource(s[2..], now);
      items := Prepended(Escape(s[1]), tail, s, 2, rest);
      return;
    }
    UnicodeIsItem(s);
    var tail: seq<Item>;
    if n == 6 {
      tail := BodyHasSource(s[6..], now);
    } else {
      var t := s[6..];
      UnicodeIsItem(t);
      assert t[6..] == s[12..];
      tail := BodyHasSource(s[12..], now);
      tail := Prepended(Unicode(t[2..6]), tail, t, 6, rest);
    }
    items := Prepended(Unicode(s[2..6]), tail, s, 6, rest);
  }

  lemma Prepended(i: Item, tail: seq<Item>, s: bytes, n: nat, rest: bytes) returns (items: seq<Item>)
    requires ItemShaped(i) && ItemsShaped(tail) && n <= |s|
    requires ItemText(i) == s[..n] && s[n..] == ItemsText(tail) + ([QUOTE] + rest)
    ensures ItemsShaped(items) && s == ItemsText(items) + ([QUOTE] + rest)
  {
    items := [i] + tail;
    assert items[1..] == tail;
    Assoc(ItemText(i), ItemsText(tail), [QUOTE] + rest);
    assert s == s[..n] + s[n..];
  }

  lemma StringHasSource(s: bytes) returns (items: seq<Item>)
    requires WellFormed(s) && ReadString(s).Ok?
    ensures ItemsShaped(items) && s == StringText(items) + ReadString(s).rest && WellFormed(ReadString(s).rest)
  {
    AsciiByte(s);
    var rest := ReadString(s).rest;
    items := BodyHasSource(s[1..], []);
    var text := ItemsText(items);
    Assoc([QUOTE], text + [QUOTE], rest);
    Assoc(text, [QUOTE], rest);
  }

  // ----- Numbers

  lemma {:induction false} DigitRunIsDigits(s: bytes)
    ensures AllDigits(s[..DigitRun(s)])
    ensures DigitRun(s) < |s| ==> !IsDigit(s[DigitRun(s)])
  {
    if s != [] && IsDigit(s[0]) {
      DigitRunIsDigits(s[1..]);
      var n := DigitRun(s[1..]);
      assert s[..1 + n] == [s[0]] + s[1..][..n];
    }
  }

  lemma WholeHasSource(s: bytes)
    requires WholeRun(s) > 0
    ensures var w := WholeRun(s); WholeShaped(s[..w]) && (w < |s| ==> !IsDigit(s[w]))
  {
    DigitRunIsDigits(s);
  }

  lemma FractionHasSource(s: bytes) returns (fraction: bytes)
    requires FractionRun(s).Some?
    ensures var f := FractionRun(s).value;
            && AllDigits(fraction) && FractionText(fraction) == s[..f]
            && (s == [] || !IsDigit(s[0]) ==> f < |s| ==> !IsDigit(s[f]) && (f == 0 ==> s[f] != DOT))
  {
    fraction := [];
    if s != [] && s[0] == DOT {
      var d := DigitRun(s[1..]);
      DigitRunIsDigits(s[1..]);
      fraction := s[1..][..d];
      assert s[..1 + d] == [DOT] + fraction;
    }
  }

  lemma ExponentHasSource(s: bytes) returns (e: Exponent)
    requires ExponentRun(s).Some?
    ensures var n := ExponentRun(s).value;
            && ExponentShaped(e) && ExponentText(e) == s[..n] && (n == 0 <==> e.NoExponent?)
            && (s == [] || !IsDigit(s[0]) ==> n < |s| ==> !IsDigit(s[n]) && (n == 0 ==> s[n] != 0x65 && s[n] != 0x45))
  {
    e := NoExponent;
    if s != [] && (s[0] == 0x65 || s[0] == 0x45) {
      var t := s[1..];
      var k := SignRun(t);
      var d := DigitRun(t[k..]);
      DigitRunIsDigits(t[k..]);
      e := Exponent(s[0], t[..k], t[k..][..d]);
      assert s[..1 + k + d] == [s[0]] + (t[..k] + t[k..][..d]);
      assert t[k..][..d] != [];
    }
  }

  lemma MinusHasSource(s: bytes)
    ensures MinusText(MinusRun(s) == 1) == s[..MinusRun(s)]
  {
  }

  lemma NumberHasSource(s: bytes, lim: Limits) returns (t: Tree)
    requires WellFormed(s) && ReadNumber(s, lim).Ok?
    ensures t.Number? && WellShaped(t) && DigitsWithin(t, lim.digits)
    ensures s == Source(t) + ReadNumber(s, lim).rest && Ends(t, ReadNumber(s, lim).rest)
    ensures WellFormed(ReadNumber(s, lim).rest)
  {
    t := MeasuredNumber(s);
    NumberIsAscii(t);
    AsciiPrefix(Source(t), s);
  }

  lemma MeasuredNumber(s: bytes) returns (t: Tree)
    requires Measure(s).Extent?
    ensures var Extent(m, w, f, e) := Measure(s);
            var n := m + w + f + e;
            t.Number? && WellShaped(t) && Source(t) == s[..n] && |t.whole| == w && Ends(t, s[n..])
            && (f + e == 0 <==> t.fraction == [] && t.exponent.NoExponent?)
  {
    var Extent(m, w, f, e) := Measure(s);
    t := PiecesHaveSource(s, m, w, f, e);
  }

  lemma PiecesHaveSource(s: bytes, m: nat, w: nat, f: nat, e: nat) returns (t: Tree)
    requires m + w + f + e <= |s| && m == MinusRun(s) && w == WholeRun(s[m..]) && w > 0
    requires FractionRun(s[m..][w..]) == Some(f) && ExponentRun(s[m..][w..][f..]) == Some(e)
    ensures t.Number? && WellShaped(t) && Source(t) == s[..m + w + f + e] && |t.whole| == w
            && Ends(t, s[m + w + f + e..])
    ensures f + e == 0 <==> t.fraction == [] && t.exponent.NoExponent?
  {
    var a := s[m..];
    MinusHasSource(s);
    WholeHasSource(a);
    At(a, w);
    var fraction, exponent := TailHasSource(a[w..], f, e);
    t := Assembled(s, m, w, f, e, fraction, exponent);
  }

  lemma Assembled(s: bytes, m: nat, w: nat, f: nat, e: nat, fraction: bytes, exponent: Exponent) returns (t: Tree)
    requires m + w + f + e <= |s| && WholeShaped(s[m..][..w]) && AllDigits(fraction) && ExponentShaped(exponent)
    requires MinusText(m == 1) == s[..m]
    requires FractionText(fraction) == s[m..][w..][..f] && ExponentText(exponent) == s[m..][w..][f..][..e]
    ensures t == Number(m == 1, s[m..][..w], fraction, exponent)
    ensures WellShaped(t) && Source(t) == s[..m + w + f + e]
    ensures s[m + w + f + e..] == s[m..][w..][f..][e..]
  {
    FourPieces(s, m, w, f, e);
    t := Number(m == 1, s[m..][..w], fraction, exponent);
  }

  lemma At(s: bytes, n: nat)
    requires n <= |s|
    ensures s[n..] != [] ==> n < |s| && s[n..][0] == s[n]
  {
  }

  lemma TailHasSource(s: bytes, f: nat, e: nat) returns (fraction: bytes, exponent: Exponent)
    requires s == [] || !IsDigit(s[0])
    requires FractionRun(s) == Some(f) && ExponentRun(s[f..]) == Some(e)
    ensures AllDigits(fraction) && ExponentShaped(exponent)
    ensures FractionText(fraction) == s[..f] && ExponentText(exponent) == s[f..][..e]
    ensures f + e == 0 <==> fraction == [] && exponent.NoExponent?
    ensures NumberEnds(fraction, exponent, s[f..][e..])
  {
    fraction := FractionHasSource(s);
    var c := s[f..];
    assert c != [] ==> c[0] == s[f];
    exponent := ExponentHasSource(c);
    assert c[e..] != [] ==> c[e..][0] == c[e];
  }

  lemma FourPieces(s: bytes, m: nat, w: nat, f: nat, e: nat)
    requires m + w + f + e <= |s|
    ensures s[m..][w..][f..][e..] == s[m + w + f + e..]
    ensures s[..m] + (s[m..][..w] + (s[m..][w..][..f] + s[m..][w..][f..][..e])) == s[..m + w + f + e]
  {
    var a := s[m..];
    var b := a[w..];
    assert b == s[m + w..];
    assert b[f..] == s[m + w + f..];
    assert a[..w] == s[m..m + w] && b[..f] == s[m + w..m + w + f] && b[f..][..e] == s[m + w + f..m + w + f + e];
    assert s[m + w..m + w + f] + s[m + w + f..m + w + f + e] == s[m + w..m + w + f + e];
    assert s[m..m + w] + s[m + w..m + w + f + e] == s[m..m + w + f + e];
  }

  lemma NumberIsAscii(t: Tree)
    requires t.Number? && WellShaped(t)
    ensures Ascii(Source(t))
  {
    assert Ascii(t.whole) && Ascii(t.fraction);
    assert Ascii(FractionText(t.fraction)) && Ascii(ExponentText(t.exponent));
  }

  // ----- Values

  lemma WordHasSource(s: bytes, v: Value)
    requires WellFormed(s) && IsWord(v) && WordText(v) <= s
    ensures s == WordText(v) + s[|WordText(v)|..] && WellFormed(s[|WordText(v)|..])
  {
    AsciiPrefix(WordText(v), s);
  }

  lemma ScalarHasSource(s: bytes, lim: Limits) returns (t: Tree)
    requires WellFormed(s) && s != [] && ReadScalar(s, lim).Ok?
    ensures !t.Arr? && !t.Obj? && WellShaped(t) && DigitsWithin(t, lim.digits)
    ensures s == Source(t) + ReadScalar(s, lim).rest && Ends(t, ReadScalar(s, lim).rest)
    ensures WellFormed(ReadScalar(s, lim).rest)
  {
    var v := ReadScalar(s, lim).value;
    if s[0] == QUOTE {
      var items := StringHasSource(s);
      t := Str(items);
    } else if ExpectedWord(s).Some? {
      WordHasSource(s, v);
      t := Word(v);
    } else {
      t := NumberHasSource(s, lim);
    }
  }

  ghost predicate Reads(t: Tree, ws: bytes, s: bytes, rest: bytes, depth: nat, lim: Limits) {
    && AllSpace(ws) && WellShaped(t) && DigitsWithin(t, lim.digits)
    && depth + Depth(t) <= lim.depth + 1
    && s == ws + (Source(t) + rest) && WellFormed(rest) && Ends(t, rest)
  }

  lemma {:induction false} ValueHasSource(s: bytes, depth: nat, lim: Limits) returns (ws: bytes, t: Tree)
    requires WellFormed(s) && ReadValue(s, depth, lim).Ok?
    ensures Reads(t, ws, s, ReadValue(s, depth, lim).rest, depth, lim)
    decreases |s|, 2
  {
    ws := SkippedSpace(s);
    var u := SkipSpace(s);
    var rest := ReadValue(s, depth, lim).rest;
    if u[0] == LBRACE {
      t := ObjectHasSource(u, depth, lim);
    } else if u[0] == LBRACKET {
      t := ArrayHasSource(u, depth, lim);
    } else {
      t := ScalarHasSource(u, lim);
      NoSpaceBefore(t, u, rest, depth, lim);
    }
    SpaceBefore(ws, t, u, rest, depth, lim);
  }

  lemma NoSpaceBefore(t: Tree, s: bytes, rest: bytes, depth: nat, lim: Limits)
    requires !t.Arr? && !t.Obj? && WellShaped(t) && DigitsWithin(t, lim.digits) && depth <= lim.depth
    requires s == Source(t) + rest && WellFormed(rest) && Ends(t, rest)
    ensures Reads(t, [], s, rest, depth, lim)
  {
    assert [] + (Source(t) + rest) == Source(t) + rest;
  }

  lemma SpaceBefore(ws: bytes, t: Tree, s: bytes, rest: bytes, depth: nat, lim: Limits)
    requires AllSpace(ws) && Reads(t, [], s, rest, depth, lim)
    ensures Reads(t, ws, ws + s, rest, depth, lim)
  {
    assert s == [] + (Source(t) + rest);
    assert s == Source(t) + rest;
  }

  lemma {:induction false} ArrayHasSource(s: bytes, depth: nat, lim: Limits) returns (t: Tree)
    requires WellFormed(s) && depth <= lim.depth && ReadArray(s, depth, lim).Ok?
    ensures t.Arr? && Reads(t, [], s, ReadArray(s, depth, lim).rest, depth, lim)
    decreases |s|, 1
  {
    var rest := ReadArray(s, depth, lim).rest;
    AsciiByte(s);
    var inner := SkippedSpace(s[1..]);
    var u := SkipSpace(s[1..]);
    if u != [] && u[0] == RBRACKET {
      AsciiByte(u);
      t := Arr(inner, NoElements);
      ArrayText(inner, [], rest);
      assert [] + ([RBRACKET] + rest) == [RBRACKET] + rest;
    } else {
      var es := ElementsHaveSource(u, depth, lim, []);
      var first := es.(before := inner + es.before);
      WiderElement(es, inner);
      t := Arr([], first);
      ArrayText([], ElementsText(first), rest);
      Assoc(inner, ElementsText(es), [RBRACKET] + rest);
    }
    assert [] + (Source(t) + rest) == Source(t) + rest;
  }

  lemma ArrayText(inner: bytes, text: bytes, rest: bytes)
    ensures ([LBRACKET] + (inner + (text + [RBRACKET]))) + rest == [LBRACKET] + (inner + (text + ([RBRACKET] + rest)))
    ensures [] + (text + ([RBRACKET] + rest)) == text + ([RBRACKET] + rest)
  {
    Assoc([LBRACKET], inner + (text + [RBRACKET]), rest);
    Assoc(inner, text + [RBRACKET], rest);
    Assoc(text, [RBRACKET], rest);
  }

  lemma WiderElement(es: Elements, inner: bytes)
    requires ElementsShaped(es) && es.Element? && AllSpace(inner)
    ensures ElementsShaped(es.(before := inner + es.before))
    ensures ElementsText(es.(before := inner + es.before)) == inner + ElementsText(es)
  {
    Assoc(inner, es.before,
          Source(es.value) + (es.after + if es.more.NoElements? then [] else [COMMA] + ElementsText(es.more)));
  }

  lemma SeparatorHasSource(s: bytes, close: byte) returns (after: bytes)
    requires WellFormed(s) && close < 0x80 && ReadSeparator(s, close).Ok?
    ensures AllSpace(after) && WellFormed(ReadSeparator(s, close).rest)
    ensures s == after + ([if ReadSeparator(s, close).value then COMMA else close] + ReadSeparator(s, close).rest)
  {
    after := SkippedSpace(s);
    AsciiByte(SkipSpace(s));
  }

  lemma {:induction false} ElementsHaveSource(s: bytes, depth: nat, lim: Limits, sofar: seq<Value>)
    returns (es: Elements)
    requires WellFormed(s) && depth <= lim.depth && ReadElements(s, depth, lim, sofar).Ok?
    ensures es.Element? && ElementsShaped(es) && ElementsDigitsWithin(es, lim.digits)
            && depth + ElementsDepth(es) <= lim.depth
    ensures s == ElementsText(es) + ([RBRACKET] + ReadElements(s, depth, lim, sofar).rest)
    ensures WellFormed(ReadElements(s, depth, lim, sofar).rest)
    decreases |s|, 4
  {
    var rest := ReadElements(s, depth, lim, sofar).rest;
    var Ok(e, next) := ReadElement(s, depth, lim);
    var before, t := ValueHasSource(s, depth + 1, lim);
    var afterValue := ReadValue(s, depth + 1, lim).rest;
    var after := SeparatorHasSource(afterValue, RBRACKET);
    var more := NoElements;
    if e.more {
      more := ElementsHaveSource(next, depth, lim, sofar + [e.value]);
    }
    es := Element(before, t, after, more);
    ElementSource(es, rest, [if more.NoElements? then RBRACKET else COMMA], next);
  }

  lemma {:induction false} ObjectHasSource(s: bytes, depth: nat, lim: Limits) returns (t: Tree)
    requires WellFormed(s) && depth <= lim.depth && ReadObject(s, depth, lim).Ok?
    ensures t.Obj? && Reads(t, [], s, ReadObject(s, depth, lim).rest, depth, lim)
    decreases |s|, 1
  {
    var rest := ReadObject(s, depth, lim).rest;
    AsciiByte(s);
    var inner := SkippedSpace(s[1..]);
    var u := SkipSpace(s[1..]);
    if u != [] && u[0] == RBRACE {
      AsciiByte(u);
      t := Obj(inner, NoMembers);
      ObjectText(inner, [], rest);
      assert [] + ([RBRACE] + rest) == [RBRACE] + rest;
    } else {
      var ms := MembersHaveSource(u, depth, lim, []);
      var first := ms.(before := inner + ms.before);
      WiderMember(ms, inner);
      t := Obj([], first);
      ObjectText([], MembersText(first), rest);
      Assoc(inner, MembersText(ms), [RBRACE] + rest);
    }
    assert [] + (Source(t) + rest) == Source(t) + rest;
  }

  lemma ObjectText(inner: bytes, text: bytes, rest: bytes)
    ensures ([LBRACE] + (inner + (text + [RBRACE]))) + rest == [LBRACE] + (inner + (text + ([RBRACE] + rest)))
    ensures [] + (text + ([RBRACE] + rest)) == text + ([RBRACE] + rest)
  {
    Assoc([LBRACE], inner + (text + [RBRACE]), rest);
    Assoc(inner, text + [RBRACE], rest);
    Assoc(text, [RBRACE], rest);
  }

  lemma WiderMember(ms: Members, inner: bytes)
    requires MembersShaped(ms) && ms.Member? && AllSpace(inner)
    ensures MembersShaped(ms.(before := inner + ms.before))
    ensures MembersText(ms.(before := inner + ms.before)) == inner + MembersText(ms)
  {
    var tail := StringText(ms.key) + (ms.beforeColon + ([COLON] + (ms.afterColon + (Source(ms.value)
      + (ms.after + if ms.more.NoMembers? then [] else [COMMA] + MembersText(ms.more))))));
    Assoc(inner, ms.before, tail);
  }

  lemma KeyHasSource(s: bytes) returns (before: bytes, key: seq<Item>, beforeColon: bytes)
    requires WellFormed(s) && ReadKey(s).Ok?
    ensures AllSpace(before) && ItemsShaped(key) && AllSpace(beforeColon) && WellFormed(ReadKey(s).rest)
    ensures s == before + (StringText(key) + (beforeColon + ([COLON] + ReadKey(s).rest)))
  {
    before := SkippedSpace(s);
    var u := SkipSpace(s);
    key := StringHasSource(u);
    beforeColon := SkippedSpace(ReadString(u).rest);
    AsciiByte(SkipSpace(ReadString(u).rest));
  }

  lemma {:induction false} MembersHaveSource(s: bytes, depth: nat, lim: Limits, sofar: seq<(bytes, Value)>)
    returns (ms: Members)
    requires WellFormed(s) && depth <= lim.depth && ReadMembers(s, depth, lim, sofar).Ok?
    ensures ms.Member? && MembersShaped(ms) && MembersDigitsWithin(ms, lim.digits)
            && depth + MembersDepth(ms) <= lim.depth
    ensures s == MembersText(ms) + ([RBRACE] + ReadMembers(s, depth, lim, sofar).rest)
    ensures WellFormed(ReadMembers(s, depth, lim, sofar).rest)
    decreases |s|, 4
  {
    var rest := ReadMembers(s, depth, lim, sofar).rest;
    var Ok(m, next) := ReadMember(s, depth, lim);
    ms := MemberHasSource(s, depth, lim);
    if m.more {
      var more := MembersHaveSource(next, depth, lim, Upsert(sofar, m.key, m.value));
      ms := WithMore(ms, more, depth, lim);
    }
    MemberSource(ms, rest, [if m.more then COMMA else RBRACE], next);
  }

  lemma WithMore(m: Members, more: Members, depth: nat, lim: Limits) returns (ms: Members)
    requires m.Member? && MembersShaped(m) && DigitsWithin(m.value, lim.digits) && depth + Depth(m.value) <= lim.depth
    requires MembersShaped(more) && MembersDigitsWithin(more, lim.digits) && depth + MembersDepth(more) <= lim.depth
    ensures ms == m.(more := more)
    ensures MembersShaped(ms) && MembersDigitsWithin(ms, lim.digits) && depth + MembersDepth(ms) <= lim.depth
  {
    ms := m.(more := more);
  }

  /** One member, with the list of those after it still to be filled in. */
  lemma {:induction false} MemberHasSource(s: bytes, depth: nat, lim: Limits) returns (m: Members)
    requires WellFormed(s) && depth <= lim.depth && ReadMember(s, depth, lim).Ok?
    ensures m.Member? && m.more.NoMembers? && MembersShaped(m) && DigitsWithin(m.value, lim.digits)
    ensures depth + Depth(m.value) <= lim.depth
    ensures var Ok(one, next) := ReadMember(s, depth, lim);
            && WellFormed(next)
            && s == m.before + (StringText(m.key) + (m.beforeColon + ([COLON] + (m.afterColon
                 + (Source(m.value) + (m.after + ([if one.more then COMMA else RBRACE] + next)))))))
    decreases |s|, 3
  {
    var before, key, beforeColon := KeyHasSource(s);
    var afterKey := ReadKey(s).rest;
    var afterColon, t := ValueHasSource(afterKey, depth + 1, lim);
    var after := SeparatorHasSource(ReadValue(afterKey, depth + 1, lim).rest, RBRACE);
    m := Member(before, key, beforeColon, afterColon, t, after, NoMembers);
  }

  // ----- Documents

  /** `text` is the document with syntax tree `t` between `lead` and `trail` whitespace. */
  ghost predicate Derives(text: bytes, lead: bytes, t: Tree, trail: bytes) {
    WellShaped(t) && AllSpace(lead) && AllSpace(trail) && text == lead + (Source(t) + trail)
  }

  /** The tree is within the protocol's bounds. */
  predicate Within(t: Tree, lim: Limits) { Depth(t) <= lim.depth && DigitsWithin(t, lim.digits) }

  /** The whole verdict on a document of the grammar: its meaning, or a failure when it is
      out of bounds. */
  lemma DerivedDocumentIsRead(text: bytes, lead: bytes, t: Tree, trail: bytes, lim: Limits)
    requires Derives(text, lead, t, trail)
    ensures ReadDocument(text, lim) == if Within(t, lim) then Some(Meaning(t)) else None
  {
    SpaceIsSkipped(lead, Source(t) + trail);
    SpacedValue([], t, trail, 1, lim);
    FirstByte(t);
    assert (Source(t) + trail)[0] == Source(t)[0];
    assert SkipSpace(Source(t) + trail) == Source(t) + trail;
    ValueIsRead(t, trail, 1, lim);
    SpaceIsSkipped(trail, []);
    assert trail + [] == trail;
  }

  lemma ReadDocumentIsDerived(text: bytes, lim: Limits) returns (lead: bytes, t: Tree, trail: bytes)
    requires WellFormed(text) && ReadDocument(text, lim).Some?
    ensures Derives(text, lead, t, trail) && Within(t, lim) && ReadDocument(text, lim) == Some(Meaning(t))
  {
    var ws := SkippedSpace(text);
    var u := SkipSpace(text);
    var ws2;
    ws2, t := ValueHasSource(u, 1, lim);
    var rest := ReadValue(u, 1, lim).rest;
    trail := SkippedSpace(rest);
    assert rest == trail by { assert trail + [] == trail; }
    lead := ws + ws2;
    Assoc(ws, ws2, Source(t) + trail);
    DerivedDocumentIsRead(text, lead, t, trail, lim);
  }

  /** The parser accepts exactly the grammar, within the bounds, and returns the meaning. */
  lemma AcceptsExactlyTheGrammar(text: bytes, lim: Limits, v: Value)
    requires WellFormed(text)
    ensures ReadDocument(text, lim) == Some(v) <==>
            exists lead, t, trail :: Derives(text, lead, t, trail) && Within(t, lim) && Meaning(t) == v
  {
    if ReadDocument(text, lim) == Some(v) {
      var lead, t, trail := ReadDocumentIsDerived(text, lim);
    }
    forall lead, t, trail | Derives(text, lead, t, trail) && Within(t, lim) && Meaning(t) == v
      ensures ReadDocument(text, lim) == Some(v)
    {
      DerivedDocumentIsRead(text, lead, t, trail, lim);
    }
  }
}
