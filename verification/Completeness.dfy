/** Every text of the grammar is read back as its meaning. */
module Completeness {
  import opened Options
  import opened Bytes
  import opened Utf8
  import opened Json
  import opened Grammar
  import opened Reader

  // ----- Whitespace

  lemma {:induction false} SpaceIsSkipped(ws: bytes, s: bytes)
    requires AllSpace(ws)
    ensures SkipSpace(ws + s) == SkipSpace(s)
  {
    if ws == [] {
      assert ws + s == s;
    } else {
      SpaceIsSkipped(ws[1..], s);
      assert (ws + s)[1..] == ws[1..] + s;
    }
  }

  lemma SkipTwice(s: bytes)
    ensures SkipSpace(SkipSpace(s)) == SkipSpace(s)
  {
  }

  /** Leading whitespace makes no difference to a value, an element or a member. */
  lemma LeadingSpace(s: bytes, depth: nat, lim: Limits, a: seq<Value>, o: seq<(bytes, Value)>)
    ensures ReadValue(SkipSpace(s), depth, lim) == ReadValue(s, depth, lim)
    ensures ReadElements(SkipSpace(s), depth, lim, a) == ReadElements(s, depth, lim, a)
    ensures ReadMembers(SkipSpace(s), depth, lim, o) == ReadMembers(s, depth, lim, o)
  {
    SkipTwice(s);
    assert ReadValue(SkipSpace(s), depth + 1, lim) == ReadValue(s, depth + 1, lim);
    assert ReadKey(SkipSpace(s)) == ReadKey(s);
  }

  // ----- Strings

  predicate PlainByte(b: byte) { b >= 0x20 && b != QUOTE && b != BACKSLASH }

  lemma {:induction false} PlainBytesArePushed(e: bytes, s: bytes, out: bytes)
    requires forall i | 0 <= i < |e| :: PlainByte(e[i])
    ensures ReadBody(e + s, out) == ReadBody(s, out + e)
  {
    if e == [] {
      assert e + s == s && out + e == out;
    } else {
      PlainBytesArePushed(e[1..], s, out + [e[0]]);
      assert (e + s)[1..] == e[1..] + s && (out + [e[0]]) + e[1..] == out + e;
    }
  }

  lemma PlainPointIsPlainBytes(c: codepoint)
    requires ItemShaped(Plain(c))
    ensures forall i | 0 <= i < |Encode(c)| :: PlainByte(Encode(c)[i])
  {
  }

  lemma Hex4Reads(hex: bytes, s: bytes)
    requires |hex| == 4 && AllHex(hex)
    ensures Hex4(hex + s) == Some(Hexadecimal(hex)) && (hex + s)[4..] == s
  {
    assert (hex + s)[..4] == hex;
  }

  /** Up to the closing quote, nothing pairs with a preceding high surrogate except an
      escaped low one. */
  lemma LowAfterItems(items: seq<Item>, rest: bytes)
    requires ItemsShaped(items)
    ensures LowAfter(ItemsText(items) + ([QUOTE] + rest))
         == if items != [] && IsUnicodeLow(items[0]) then Some(Hexadecimal(items[0].hex)) else None
  {
    if items == [] {
      assert ItemsText(items) + ([QUOTE] + rest) == [QUOTE] + rest;
    } else {
      var t := ItemsText(items[1..]) + ([QUOTE] + rest);
      assert ItemsText(items) + ([QUOTE] + rest) == ItemText(items[0]) + t;
      LowAfterItem(items[0], t);
    }
  }

  lemma LowAfterItem(i: Item, t: bytes)
    requires ItemShaped(i)
    ensures LowAfter(ItemText(i) + t) == if IsUnicodeLow(i) then Some(Hexadecimal(i.hex)) else None
  {
    var s := ItemText(i) + t;
    match i
    case Plain(c) => PlainPointIsPlainBytes(c); assert s[0] == Encode(c)[0];
    case Escape(letter) => assert s[1] == letter;
    case Unicode(hex) => Hex4Reads(hex, t); assert s[2..] == hex + t;
  }

  lemma UnicodeItemStep(hex: bytes, t: bytes)
    requires |hex| == 4 && AllHex(hex)
    ensures var s := ItemText(Unicode(hex)) + t;
            var code := Hexadecimal(hex);
            code < 0x10000 &&
            BodyStep(s) == if High(code) && LowAfter(t).Some? then Push(Encode(Join(code, LowAfter(t).value)), 12)
                           else Push(Encode(code), 6)
  {
    var s := ItemText(Unicode(hex)) + t;
    assert s[0] == BACKSLASH && s[1] == 0x75 && s[2..] == hex + t;
    Hex4Reads(hex, t);
    Hexadecimal4(hex);
  }

  lemma {:induction false} BodyIsRead(items: seq<Item>, rest: bytes, out: bytes)
    requires ItemsShaped(items)
    ensures ReadBody(ItemsText(items) + ([QUOTE] + rest), out) == Ok(out + EncodeAll(Points(items)), rest)
    decreases |items|
  {
    var s := ItemsText(items) + ([QUOTE] + rest);
    if items == [] {
      assert s == [QUOTE] + rest && s[1..] == rest && out + [] == out;
      return;
    }
    var tail := items[1..];
    var t := ItemsText(tail) + ([QUOTE] + rest);
    assert s == ItemText(items[0]) + t;
    match items[0]
    case Plain(c) =>
      PlainPointIsPlainBytes(c);
      PlainBytesArePushed(Encode(c), t, out);
      BodyIsRead(tail, rest, out + Encode(c));
      PushedFirst(out, c, Points(tail));
    case Escape(letter) =>
      var b := Escaped(letter).value;
      EscapeStep(letter, t);
      BodyIsRead(tail, rest, out + [b]);
      PushedFirst(out, b, Points(tail));
    case Unicode(hex) =>
      UnicodeIsRead(items, rest, out);
  }

  lemma EscapeStep(letter: byte, t: bytes)
    requires Escaped(letter).Some?
    ensures var s := [BACKSLASH, letter] + t; BodyStep(s) == Push([Escaped(letter).value], 2) && s[2..] == t
  {
    var s := [BACKSLASH, letter] + t;
    assert s[0] == BACKSLASH && s[1] == letter;
  }

  lemma {:induction false} UnicodeIsRead(items: seq<Item>, rest: bytes, out: bytes)
    requires ItemsShaped(items) && items != [] && items[0].Unicode?
    ensures ReadBody(ItemsText(items) + ([QUOTE] + rest), out) == Ok(out + EncodeAll(Points(items)), rest)
    decreases |items|, 0
  {
    var tail := items[1..];
    var t := ItemsText(tail) + ([QUOTE] + rest);
    var s := ItemText(items[0]) + t;
    Assoc(ItemText(items[0]), ItemsText(tail), [QUOTE] + rest);
    var hex := items[0].hex;
    var code := Hexadecimal(hex);
    UnicodeItemStep(hex, t);
    LowAfterItems(tail, rest);
    Dropped(ItemText(items[0]), t);
    if High(code) && tail != [] && IsUnicodeLow(tail[0]) {
      var u := ItemsText(tail[1..]) + ([QUOTE] + rest);
      Assoc(ItemText(tail[0]), ItemsText(tail[1..]), [QUOTE] + rest);
      Dropped(ItemText(tail[0]), u);
      assert s[12..] == t[6..];
      var c := Join(code, Hexadecimal(tail[0].hex));
      BodyIsRead(tail[1..], rest, out + Encode(c));
      PushedFirst(out, c, Points(tail[1..]));
    } else {
      BodyIsRead(tail, rest, out + Encode(code));
      PushedFirst(out, code, Points(tail));
    }
  }

  lemma PushedFirst(out: bytes, c: codepoint, cs: seq<codepoint>)
    ensures (out + Encode(c)) + EncodeAll(cs) == out + EncodeAll([c] + cs)
  {
    assert ([c] + cs)[1..] == cs;
  }

  lemma StringIsRead(items: seq<Item>, rest: bytes)
    requires ItemsShaped(items)
    ensures ReadString(StringText(items) + rest) == Ok(EncodeAll(Points(items)), rest)
  {
    var text := ItemsText(items);
    Assoc([QUOTE], text + [QUOTE], rest);
    Assoc(text, [QUOTE], rest);
    Front(QUOTE, text + ([QUOTE] + rest));
    BodyIsRead(items, rest, []);
    assert [] + EncodeAll(Points(items)) == EncodeAll(Points(items));
  }

  // ----- Numbers

  /** What may follow a number: no digit, no exponent mark unless it had one, and no point
      unless it had a fraction or an exponent. */
  predicate NumberEnds(fraction: bytes, exponent: Exponent, rest: bytes) {
    rest == [] || (
      && !IsDigit(rest[0])
      && (exponent.NoExponent? ==> rest[0] != 0x65 && rest[0] != 0x45)
      && (exponent.NoExponent? && fraction == [] ==> rest[0] != DOT))
  }

  predicate Ends(t: Tree, rest: bytes) {
    t.Number? ==> NumberEnds(t.fraction, t.exponent, rest)
  }

  lemma {:induction false} DigitsAreCounted(d: bytes, rest: bytes)
    requires AllDigits(d)
    requires rest == [] || !IsDigit(rest[0])
    ensures DigitRun(d + rest) == |d|
  {
    if d == [] {
      assert d + rest == rest;
    } else {
      DigitsAreCounted(d[1..], rest);
      assert (d + rest)[1..] == d[1..] + rest;
    }
  }

  lemma WholeIsCounted(whole: bytes, rest: bytes)
    requires WholeShaped(whole)
    requires rest == [] || !IsDigit(rest[0])
    ensures WholeRun(whole + rest) == |whole|
  {
    DigitsAreCounted(whole, rest);
    if whole[0] == ZERO { assert |rest| > 0 ==> (whole + rest)[1] == rest[0]; }
  }

  lemma FractionIsCounted(fraction: bytes, rest: bytes)
    requires AllDigits(fraction)
    requires rest == [] || (!IsDigit(rest[0]) && (fraction == [] ==> rest[0] != DOT))
    ensures FractionRun(FractionText(fraction) + rest) == Some(|FractionText(fraction)|)
  {
    var s := FractionText(fraction) + rest;
    if fraction == [] {
      assert s == rest;
    } else {
      DigitsAreCounted(fraction, rest);
      assert s[1..] == fraction + rest;
    }
  }

  lemma ExponentIsCounted(e: Exponent, rest: bytes)
    requires rest != [] ==> !IsDigit(rest[0]) && (e.NoExponent? ==> rest[0] != 0x65 && rest[0] != 0x45)
    requires ExponentShaped(e)
    ensures ExponentRun(ExponentText(e) + rest) == Some(|ExponentText(e)|)
  {
    var s := ExponentText(e) + rest;
    if e.NoExponent? {
      assert s == rest;
    } else {
      var t := e.sign + (e.digits + rest);
      Assoc([e.mark], e.sign + e.digits, rest);
      Assoc(e.sign, e.digits, rest);
      Front(e.mark, t);
      SignIsCounted(e.sign, e.digits + rest);
      DigitsAreCounted(e.digits, rest);
    }
  }

  lemma SignIsCounted(sign: bytes, s: bytes)
    requires sign == [] || sign == [PLUS] || sign == [MINUS]
    requires s != [] && IsDigit(s[0])
    ensures SignRun(sign + s) == |sign| && (sign + s)[|sign|..] == s
  {
    assert (sign + s)[0] == if sign == [] then s[0] else sign[0];
  }

  lemma MinusIsCounted(minus: bool, s: bytes)
    requires s != [] && IsDigit(s[0])
    ensures MinusRun(MinusText(minus) + s) == |MinusText(minus)|
    ensures (MinusText(minus) + s)[|MinusText(minus)|..] == s
  {
    assert (MinusText(minus) + s)[0] == if minus then MINUS else s[0];
  }

  /** The pieces of a number are measured one after the other. */
  lemma NumberIsMeasured(t: Tree, rest: bytes)
    requires t.Number? && WellShaped(t) && Ends(t, rest)
    ensures Measure(Source(t) + rest)
         == Extent(|MinusText(t.minus)|, |t.whole|, |FractionText(t.fraction)|, |ExponentText(t.exponent)|)
  {
    var fraction := FractionText(t.fraction);
    var exponent := ExponentText(t.exponent);
    var afterWhole := fraction + (exponent + rest);
    Assoc(MinusText(t.minus), t.whole + (fraction + exponent), rest);
    Assoc(t.whole, fraction + exponent, rest);
    Assoc(fraction, exponent, rest);
    NotADigit(t, rest);
    MinusIsCounted(t.minus, t.whole + afterWhole);
    WholeIsCounted(t.whole, afterWhole);
    Dropped(t.whole, afterWhole);
    FractionIsCounted(t.fraction, exponent + rest);
    Dropped(fraction, exponent + rest);
    ExponentIsCounted(t.exponent, rest);
  }

  lemma NotADigit(t: Tree, rest: bytes)
    requires t.Number? && WellShaped(t) && Ends(t, rest)
    ensures var s := ExponentText(t.exponent) + rest; s == [] || (!IsDigit(s[0]) && (t.fraction == [] ==> s[0] != DOT))
    ensures var s := FractionText(t.fraction) + (ExponentText(t.exponent) + rest); s == [] || !IsDigit(s[0])
  {
  }

  lemma NumberIsRead(t: Tree, rest: bytes, lim: Limits)
    requires t.Number? && WellShaped(t) && Ends(t, rest)
    ensures ReadNumber(Source(t) + rest, lim) == if DigitsWithin(t, lim.digits) then Ok(Meaning(t), rest) else Fail
  {
    NumberIsMeasured(t, rest);
    Dropped(Source(t), rest);
    if t.fraction == [] && t.exponent.NoExponent? {
      IntegerToken(t.minus, t.whole);
      IntegerSource(t);
    }
  }

  lemma IntegerSource(t: Tree)
    requires t.Number? && WellShaped(t) && t.fraction == [] && t.exponent.NoExponent?
    ensures Source(t) == MinusText(t.minus) + t.whole
  {
  }

  lemma IntegerToken(minus: bool, whole: bytes)
    requires WholeShaped(whole)
    ensures IntegerValue(MinusText(minus) + whole) == IntegerMeaning(minus, whole)
  {
    var token := MinusText(minus) + whole;
    if minus { assert token[1..] == whole; } else { assert token == whole; }
  }

  // ----- Values

  /** No value's text begins with whitespace or a closing bracket. */
  lemma FirstByte(t: Tree)
    requires WellShaped(t)
    ensures Source(t) != []
    ensures !IsSpace(Source(t)[0]) && Source(t)[0] != RBRACKET && Source(t)[0] != RBRACE
    ensures (Source(t)[0] == LBRACE <==> t.Obj?) && (Source(t)[0] == LBRACKET <==> t.Arr?)
  {
  }

  lemma WordIsRead(v: Value, rest: bytes, lim: Limits)
    requires IsWord(v)
    ensures ReadScalar(WordText(v) + rest, lim) == Ok(v, rest)
  {
    var s := WordText(v) + rest;
    Dropped(WordText(v), rest);
    assert s[0] == WordText(v)[0];
  }

  /** A text that starts with a digit, or with a sign and a digit, goes to the number
      scanner: it is never the word `-Infinity`. */
  lemma NumberIsDispatched(s: bytes, lim: Limits)
    requires s != [] && (IsDigit(s[0]) || (s[0] == MINUS && |s| > 1 && IsDigit(s[1])))
    ensures ReadScalar(s, lim) == ReadNumber(s, lim)
  {
    assert NEG_INFINITY_WORD[0] == MINUS && NEG_INFINITY_WORD[1] == 0x49;
  }

  lemma NumberStarts(minus: bool, whole: bytes, tail: bytes)
    requires WholeShaped(whole)
    ensures var s := MinusText(minus) + (whole + tail);
            s != [] && (IsDigit(s[0]) || (s[0] == MINUS && |s| > 1 && IsDigit(s[1])))
  {
    var s := MinusText(minus) + (whole + tail);
    assert s[|MinusText(minus)|] == whole[0];
  }

  lemma ScalarIsRead(t: Tree, rest: bytes, lim: Limits)
    requires WellShaped(t) && !t.Arr? && !t.Obj? && Ends(t, rest)
    ensures ReadScalar(Source(t) + rest, lim) == if DigitsWithin(t, lim.digits) then Ok(Meaning(t), rest) else Fail
  {
    match t
    case Word(v) => WordIsRead(v, rest, lim);
    case Str(items) => StringIsRead(items, rest);
    case Number(_, _, _, _) =>
      var tail := FractionText(t.fraction) + ExponentText(t.exponent);
      Assoc(MinusText(t.minus), t.whole + tail, rest);
      Assoc(t.whole, tail, rest);
      NumberStarts(t.minus, t.whole, tail + rest);
      NumberIsDispatched(Source(t) + rest, lim);
      NumberIsRead(t, rest, lim);
  }

  /** The tree, read at the given depth, stays within the bounds. */
  predicate Fits(t: Tree, depth: nat, lim: Limits) {
    depth + Depth(t) <= lim.depth + 1 && DigitsWithin(t, lim.digits)
  }

  predicate ElementsFit(es: Elements, depth: nat, lim: Limits) {
    depth + ElementsDepth(es) <= lim.depth && ElementsDigitsWithin(es, lim.digits)
  }

  predicate MembersFit(ms: Members, depth: nat, lim: Limits) {
    depth + MembersDepth(ms) <= lim.depth && MembersDigitsWithin(ms, lim.digits)
  }

  /** A list fits when its first value and the rest do. */
  lemma FitTogether(es: Elements, ms: Members, depth: nat, lim: Limits)
    requires depth <= lim.depth
    ensures es.Element?
            ==> ElementsFit(es, depth, lim) == (Fits(es.value, depth + 1, lim) && ElementsFit(es.more, depth, lim))
    ensures ms.Member?
            ==> MembersFit(ms, depth, lim) == (Fits(ms.value, depth + 1, lim) && MembersFit(ms.more, depth, lim))
    ensures ElementsFit(NoElements, depth, lim) && MembersFit(NoMembers, depth, lim)
  {
  }

  lemma {:induction false} ValueIsRead(t: Tree, rest: bytes, depth: nat, lim: Limits)
    requires WellShaped(t) && Ends(t, rest)
    ensures ReadValue(Source(t) + rest, depth, lim) == if Fits(t, depth, lim) then Ok(Meaning(t), rest) else Fail
    decreases t, 1
  {
    if depth > lim.depth { return; }
    var s := Source(t) + rest;
    FirstByte(t);
    assert s[0] == Source(t)[0];
    assert SkipSpace(s) == s;
    match t
    case Arr(_, _) => ArrayIsRead(t, rest, depth, lim);
    case Obj(_, _) => ObjectIsRead(t, rest, depth, lim);
    case _ => ScalarIsRead(t, rest, lim);
  }

  lemma {:induction false} ArrayIsRead(t: Tree, rest: bytes, depth: nat, lim: Limits)
    requires WellShaped(t) && t.Arr? && depth <= lim.depth
    ensures ReadArray(Source(t) + rest, depth, lim) == if Fits(t, depth, lim) then Ok(Meaning(t), rest) else Fail
    decreases t, 0
  {
    var Arr(inner, elements) := t;
    assert Fits(t, depth, lim) == ElementsFit(elements, depth, lim);
    var text := ElementsText(elements);
    var tail := text + ([RBRACKET] + rest);
    Assoc([LBRACKET], inner + (text + [RBRACKET]), rest);
    Assoc(inner, text + [RBRACKET], rest);
    Assoc(text, [RBRACKET], rest);
    Front(LBRACKET, inner + tail);
    SpaceIsSkipped(inner, tail);
    if elements.NoElements? {
      assert tail == [RBRACKET] + rest;
      Front(RBRACKET, rest);
    } else {
      ElementsAreRead(elements, rest, depth, lim, []);
      ElementsStart(elements, [RBRACKET] + rest);
      LeadingSpace(tail, depth, lim, [], []);
      assert [] + ElementsMeaning(elements) == ElementsMeaning(elements);
    }
  }

  lemma {:induction false} ObjectIsRead(t: Tree, rest: bytes, depth: nat, lim: Limits)
    requires WellShaped(t) && t.Obj? && depth <= lim.depth
    ensures ReadObject(Source(t) + rest, depth, lim) == if Fits(t, depth, lim) then Ok(Meaning(t), rest) else Fail
    decreases t, 0
  {
    var Obj(inner, members) := t;
    assert Fits(t, depth, lim) == MembersFit(members, depth, lim);
    var text := MembersText(members);
    var tail := text + ([RBRACE] + rest);
    Assoc([LBRACE], inner + (text + [RBRACE]), rest);
    Assoc(inner, text + [RBRACE], rest);
    Assoc(text, [RBRACE], rest);
    Front(LBRACE, inner + tail);
    SpaceIsSkipped(inner, tail);
    if members.NoMembers? {
      assert tail == [RBRACE] + rest;
      Front(RBRACE, rest);
    } else {
      MembersAreRead(members, rest, depth, lim, []);
      MembersStart(members, [RBRACE] + rest);
      LeadingSpace(tail, depth, lim, [], []);
    }
  }

  lemma ElementsStart(es: Elements, s: bytes)
    requires ElementsShaped(es) && es.Element?
    ensures var u := SkipSpace(ElementsText(es) + s); u != [] && u[0] != RBRACKET
  {
    FirstByte(es.value);
    var tail := Source(es.value)
        + ((es.after + if es.more.NoElements? then [] else [COMMA] + ElementsText(es.more)) + s);
    assert ElementsText(es) + s == es.before + tail;
    SpaceIsSkipped(es.before, tail);
    assert tail[0] == Source(es.value)[0];
  }

  lemma MembersStart(ms: Members, s: bytes)
    requires MembersShaped(ms) && ms.Member?
    ensures var u := SkipSpace(MembersText(ms) + s); u != [] && u[0] != RBRACE
  {
    var tail := MembersText(ms)[|ms.before|..] + s;
    assert MembersText(ms) + s == ms.before + tail;
    SpaceIsSkipped(ms.before, tail);
    assert tail[0] == StringText(ms.key)[0] == QUOTE;
  }

  lemma {:induction false} ElementsAreRead(es: Elements, rest: bytes, depth: nat, lim: Limits, sofar: seq<Value>)
    requires ElementsShaped(es) && es.Element? && depth <= lim.depth
    ensures ReadElements(ElementsText(es) + ([RBRACKET] + rest), depth, lim, sofar)
         == if ElementsFit(es, depth, lim) then Ok(Array(sofar + ElementsMeaning(es)), rest) else Fail
    decreases es
  {
    var Element(before, value, after, more) := es;
    var next := if more.NoElements? then rest else ElementsText(more) + ([RBRACKET] + rest);
    var separator := [if more.NoElements? then RBRACKET else COMMA];
    var s := ElementsText(es) + ([RBRACKET] + rest);
    ElementSource(es, rest, separator, next);
    SeparatorIsRead(after, separator[0], next, RBRACKET);
    ValueIsRead(value, after + (separator + next), depth + 1, lim);
    SpacedValue(before, value, after + (separator + next), depth + 1, lim);
    assert ReadElement(s, depth, lim)
        == if Fits(value, depth + 1, lim) then Ok(OneElement(Meaning(value), !more.NoElements?), next) else Fail;
    FitTogether(es, NoMembers, depth, lim);
    var now := sofar + [Meaning(value)];
    if more.NoElements? {
      assert [Meaning(value)] + ElementsMeaning(more) == [Meaning(value)];
    } else {
      ElementsAreRead(more, rest, depth, lim, now);
      assert now + ElementsMeaning(more) == sofar + ([Meaning(value)] + ElementsMeaning(more));
    }
  }

  lemma ElementSource(es: Elements, rest: bytes, separator: bytes, next: bytes)
    requires ElementsShaped(es) && es.Element?
    requires separator == [if es.more.NoElements? then RBRACKET else COMMA]
    requires next == if es.more.NoElements? then rest else ElementsText(es.more) + ([RBRACKET] + rest)
    ensures ElementsText(es) + ([RBRACKET] + rest) == es.before + (Source(es.value) + (es.after + (separator + next)))
  {
    var t := es.after + if es.more.NoElements? then [] else [COMMA] + ElementsText(es.more);
    assert t + ([RBRACKET] + rest) == es.after + (separator + next);
  }

  lemma SpacedValue(before: bytes, value: Tree, rest: bytes, depth: nat, lim: Limits)
    requires AllSpace(before) && WellShaped(value)
    ensures ReadValue(before + (Source(value) + rest), depth, lim) == ReadValue(Source(value) + rest, depth, lim)
  {
    SpaceIsSkipped(before, Source(value) + rest);
    LeadingSpace(before + (Source(value) + rest), depth, lim, [], []);
    LeadingSpace(Source(value) + rest, depth, lim, [], []);
  }

  /** What follows a value in an array or an object is read as its separator, and ends a
      number. */
  lemma SeparatorIsRead(after: bytes, separator: byte, next: bytes, close: byte)
    requires AllSpace(after)
    requires close == RBRACKET || close == RBRACE
    requires separator == COMMA || separator == close
    ensures forall t :: Ends(t, after + ([separator] + next))
    ensures ReadSeparator(after + ([separator] + next), close) == Ok(separator == COMMA, next)
  {
    var s := [separator] + next;
    assert (after + s)[0] == if after == [] then separator else after[0];
    SpaceIsSkipped(after, s);
    assert SkipSpace(s) == s && s[1..] == next;
  }

  lemma KeyIsRead(before: bytes, key: seq<Item>, beforeColon: bytes, rest: bytes)
    requires AllSpace(before) && ItemsShaped(key) && AllSpace(beforeColon)
    ensures ReadKey(before + (StringText(key) + (beforeColon + ([COLON] + rest)))) == Ok(EncodeAll(Points(key)), rest)
  {
    var afterKey := beforeColon + ([COLON] + rest);
    var s := StringText(key) + afterKey;
    SpaceIsSkipped(before, s);
    assert s[0] == QUOTE;
    assert SkipSpace(s) == s;
    StringIsRead(key, afterKey);
    SpaceIsSkipped(beforeColon, [COLON] + rest);
    assert SkipSpace([COLON] + rest) == [COLON] + rest;
    assert ([COLON] + rest)[1..] == rest;
  }

  lemma {:induction false} MembersAreRead(ms: Members, rest: bytes, depth: nat, lim: Limits, sofar: seq<(bytes, Value)>)
    requires MembersShaped(ms) && ms.Member? && depth <= lim.depth
    ensures ReadMembers(MembersText(ms) + ([RBRACE] + rest), depth, lim, sofar)
         == if MembersFit(ms, depth, lim) then Ok(Object(MembersMeaning(ms, sofar)), rest) else Fail
    decreases ms, 1
  {
    var next := if ms.more.NoMembers? then rest else MembersText(ms.more) + ([RBRACE] + rest);
    MemberIsRead(ms, rest, depth, lim, next);
    FitTogether(NoElements, ms, depth, lim);
    if !ms.more.NoMembers? {
      MembersAreRead(ms.more, rest, depth, lim, Upsert(sofar, EncodeAll(Points(ms.key)), Meaning(ms.value)));
    }
  }

  lemma {:induction false} MemberIsRead(ms: Members, rest: bytes, depth: nat, lim: Limits, next: bytes)
    requires MembersShaped(ms) && ms.Member? && depth <= lim.depth
    requires next == if ms.more.NoMembers? then rest else MembersText(ms.more) + ([RBRACE] + rest)
    ensures ReadMember(MembersText(ms) + ([RBRACE] + rest), depth, lim)
         == if Fits(ms.value, depth + 1, lim)
            then Ok(OneMember(EncodeAll(Points(ms.key)), Meaning(ms.value), !ms.more.NoMembers?), next)
            else Fail
    decreases ms, 0
  {
    var separator := [if ms.more.NoMembers? then RBRACE else COMMA];
    var afterValue := ms.after + (separator + next);
    MemberSource(ms, rest, separator, next);
    KeyIsRead(ms.before, ms.key, ms.beforeColon, ms.afterColon + (Source(ms.value) + afterValue));
    SeparatorIsRead(ms.after, separator[0], next, RBRACE);
    ValueIsRead(ms.value, afterValue, depth + 1, lim);
    SpacedValue(ms.afterColon, ms.value, afterValue, depth + 1, lim);
  }

  lemma MemberSource(ms: Members, rest: bytes, separator: bytes, next: bytes)
    requires MembersShaped(ms) && ms.Member?
    requires separator == [if ms.more.NoMembers? then RBRACE else COMMA]
    requires next == if ms.more.NoMembers? then rest else MembersText(ms.more) + ([RBRACE] + rest)
    ensures MembersText(ms) + ([RBRACE] + rest)
         == ms.before + (StringText(ms.key) + (ms.beforeColon + ([COLON] + (ms.afterColon
            + (Source(ms.value) + (ms.after + (separator + next)))))))
  {
    var close := [RBRACE] + rest;
    var last := if ms.more.NoMembers? then [] else [COMMA] + MembersText(ms.more);
    assert last + close == separator + next;
    var fromValue := Source(ms.value) + (ms.after + last);
    Assoc(ms.after, last, close);
    Assoc(Source(ms.value), ms.after + last, close);
    Assoc(ms.afterColon, fromValue, close);
    Assoc([COLON], ms.afterColon + fromValue, close);
    Assoc(ms.beforeColon, [COLON] + (ms.afterColon + fromValue), close);
    Assoc(StringText(ms.key), ms.beforeColon + ([COLON] + (ms.afterColon + fromValue)), close);
    Assoc(ms.before, StringText(ms.key) + (ms.beforeColon + ([COLON] + (ms.afterColon + fromValue))), close);
  }
}
