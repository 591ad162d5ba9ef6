/** Every letter, digit and escape of the protocol spelt out in characters: RFC 8259
    sections 2, 3, 6 and 7 for what is read (cpp/src/json.cpp:59-68, 95-139, 217-308), and the
    canonical spelling of what is written (cpp/src/json.cpp:430-511). */
module Spelling {
  import opened Options
  import opened Bytes
  import opened Utf8
  import opened Json
  import opened Grammar
  import opened Reader
  import opened Completeness
  import opened Soundness
  import opened Serializer
  import opened RoundTrip
  import opened Sanitizer
  import opened Protocol

  // ----- Single characters

  lemma CharactersSpelt(b: byte)
    ensures IsSpace(b) <==> b as char in " \t\n\r"
    ensures IsDigit(b) <==> b as char in "0123456789"
    ensures LBRACE == '{' as int && RBRACE == '}' as int && LBRACKET == '[' as int && RBRACKET == ']' as int
    ensures COLON == ':' as int && COMMA == ',' as int && QUOTE == '"' as int && BACKSLASH == '\\' as int
    ensures MINUS == '-' as int && PLUS == '+' as int && DOT == '.' as int
    ensures LF == '\n' as int && CR == '\r' as int
  {
    assert " \t\n\r" == [' ', '\t', '\n', '\r'];
  }

  const LOWER: string := "0123456789abcdef"
  const UPPER: string := "0123456789ABCDEF"

  /** A hexadecimal digit is its place among the sixteen, in either case. */
  lemma HexDigitsSpelt(b: byte)
    ensures forall k | 0 <= k < 16 ::
              && IsHex(LOWER[k] as int) && HexDigit(LOWER[k] as int) == k
              && IsHex(UPPER[k] as int) && HexDigit(UPPER[k] as int) == k
    ensures IsHex(b) <==> b as char in LOWER || b as char in UPPER
  {
  }

  /** The words and what they stand for. */
  const WORDS: map<string, Value> := map[
    "null" := Null, "true" := Bool(true), "false" := Bool(false),
    "NaN" := Double(NaN), "Infinity" := Double(Infinity), "-Infinity" := Double(NegInfinity)]

  lemma WordLetters(word: string)
    requires word in WORDS
    ensures IsWord(WORDS[word]) && |WordText(WORDS[word])| == |word|
    ensures forall i | 0 <= i < |word| :: WordText(WORDS[word])[i] == word[i] as int
  {
  }

  /** Each word, as a whole document, is read as what it stands for. */
  lemma WordsSpelt(word: string, text: bytes, lim: Limits)
    requires word in WORDS && lim.depth >= 1
    requires |text| == |word| && forall i | 0 <= i < |word| :: text[i] == word[i] as int
    ensures ReadDocument(text, lim) == Some(WORDS[word])
  {
    WordLetters(word);
    assert text == WordText(WORDS[word]);
    assert [] + (text + []) == text;
    DerivedDocumentIsRead(text, [], Word(WORDS[word]), [], lim);
  }

  // ----- Escapes that are read

  /** The two-letter escapes and the code unit each stands for, in hexadecimal. */
  const ESCAPES: map<char, string> := map[
    '"' := "0022", '\\' := "005c", '/' := "002f", 'b' := "0008", 'f' := "000c",
    'n' := "000a", 'r' := "000d", 't' := "0009"]

  lemma EscapeValue(c: char)
    requires c in ESCAPES
    ensures |ESCAPES[c]| == 4 && forall i | 0 <= i < 4 :: ESCAPES[c][i] in LOWER
    ensures c as int < 0x80 && Escaped(c as int).Some?
    ensures var hex := Chars(ESCAPES[c]); AllHex(hex) && Hexadecimal(hex) == Escaped(c as int).value < 0x80
  {
    var hex := Chars(ESCAPES[c]);
    assert AllHex(hex);
    Hexadecimal4(hex);
  }

  /** A two-letter escape is read, anywhere in a string, as the `\uXXXX` it abbreviates. */
  lemma EscapesSpelt(c: char, after: bytes, out: bytes)
    requires c in ESCAPES
    ensures c as int < 0x80 && |ESCAPES[c]| == 4 && forall i | 0 <= i < 4 :: ESCAPES[c][i] in LOWER
    ensures ReadBody([BACKSLASH, c as int] + after, out)
         == ReadBody([BACKSLASH, 'u' as int] + (Chars(ESCAPES[c]) + after), out)
  {
    EscapeValue(c);
    EscapeStep(c as int, after);
    UnicodeItemStep(Chars(ESCAPES[c]), after);
    UnicodeText(Chars(ESCAPES[c]), after);
  }

  lemma UnicodeText(hex: bytes, after: bytes)
    requires |hex| == 4
    ensures [BACKSLASH, 'u' as int] + (hex + after) == ItemText(Unicode(hex)) + after
    ensures ([BACKSLASH, 'u' as int] + (hex + after))[6..] == after
  {
  }

  /** Any other letter after a backslash fails the string, and so do four characters after
      `\u` that are not hexadecimal digits. */
  lemma OtherEscapesFail(b: byte, hex: bytes, after: bytes, out: bytes)
    requires |hex| == 4
    ensures b != 'u' as int && b as char !in ESCAPES ==> ReadBody([BACKSLASH, b] + after, out) == Fail
    ensures !AllHex(hex) ==> ReadBody([BACKSLASH, 'u' as int] + (hex + after), out) == Fail
  {
    var s := [BACKSLASH, 'u' as int] + (hex + after);
    assert s[2..] == hex + after && (hex + after)[..4] == hex;
    assert ([BACKSLASH, b] + after)[1] == b;
  }

  /** Four digits, each in either case, denote the code unit they spell. */
  lemma CodeUnitSpelt(digits: seq<nat>, hex: bytes)
    requires |digits| == |hex| == 4
    requires forall i | 0 <= i < 4 :: digits[i] < 16
    requires forall i | 0 <= i < 4 :: hex[i] == LOWER[digits[i]] as int || hex[i] == UPPER[digits[i]] as int
    ensures AllHex(hex)
    ensures Hexadecimal(hex) == Worth(digits)
  {
    HexDigitsSpelt(0);
    Hexadecimal4(hex);
  }

  /** A string reads the same with an escape spelt either way. */
  lemma EscapeInString(a: seq<Item>, c: char, b: seq<Item>, rest: bytes)
    requires ItemsShaped(a) && ItemsShaped(b) && c in ESCAPES
    ensures c as int < 0x80 && |ESCAPES[c]| == 4 && forall i | 0 <= i < 4 :: ESCAPES[c][i] in LOWER
    ensures ReadString(StringText(a + ([Escape(c as int)] + b)) + rest)
         == ReadString(StringText(a + ([Unicode(Chars(ESCAPES[c]))] + b)) + rest)
  {
    EscapeValue(c);
    var x, y := Escape(c as int), Unicode(Chars(ESCAPES[c]));
    assert ([x] + b)[1..] == b && ([y] + b)[1..] == b;
    SamePoints(a, [x] + b, [y] + b);
    StringIsRead(a + ([x] + b), rest);
    StringIsRead(a + ([y] + b), rest);
  }

  /** What stands before does not matter, unless it may pair with what follows. */
  lemma {:induction false} SamePoints(a: seq<Item>, p: seq<Item>, q: seq<Item>)
    requires ItemsShaped(a) && ItemsShaped(p) && ItemsShaped(q) && p != [] && q != []
    requires !IsUnicodeLow(p[0]) && !IsUnicodeLow(q[0]) && Points(p) == Points(q)
    ensures ItemsShaped(a + p) && ItemsShaped(a + q) && Points(a + p) == Points(a + q)
    decreases |a|
  {
    if a == [] {
      assert a + p == p && a + q == q;
    } else {
      var more := a[1..];
      assert a + p == [a[0]] + (more + p) && a + q == [a[0]] + (more + q);
      SamePoints(more, p, q);
      if more != [] {
        SamePoints(more[1..], p, q);
        assert (more + p)[1..] == more[1..] + p && (more + q)[1..] == more[1..] + q;
      }
      SameAfter(a[0], more + p, more + q);
    }
  }

  lemma SameAfter(i: Item, p: seq<Item>, q: seq<Item>)
    requires ItemShaped(i) && ItemsShaped(p) && ItemsShaped(q) && p != [] && q != [] && Points(p) == Points(q)
    requires IsUnicodeLow(p[0]) || IsUnicodeLow(q[0]) ==> p[0] == q[0] && Points(p[1..]) == Points(q[1..])
    ensures Points([i] + p) == Points([i] + q)
  {
    assert ([i] + p)[1..] == p && ([i] + q)[1..] == q;
  }

  // ----- Escapes that are written

  /** The characters written with a letter. */
  const LETTERS: map<int, char> := map[
    0x08 := 'b', 0x09 := 't', 0x0A := 'n', 0x0C := 'f', 0x0D := 'r', 0x22 := '"', 0x5C := '\\']

  /** What four hexadecimal digits are worth. */
  function Worth(digits: seq<nat>): nat
    requires |digits| == 4
  {
    ((digits[0] * 16 + digits[1]) * 16 + digits[2]) * 16 + digits[3]
  }

  predicate InLower(digits: seq<nat>, s: bytes) {
    |digits| == |s| == 4 && forall i | 0 <= i < 4 :: digits[i] < 16 && s[i] == LOWER[digits[i]] as int
  }

  /** `\u` and four lower-case digits for a code unit. */
  ghost predicate SpellsUnit(u: nat, s: bytes) {
    |s| == 6 && s[..2] == [BACKSLASH, 'u' as int] && exists digits :: InLower(digits, s[2..]) && Worth(digits) == u
  }

  lemma HexLetterSpelt(d: nat)
    requires d < 16
    ensures HexLetter(d) == LOWER[d] as int
  {
  }

  lemma EscapeTextSpelt(u: nat)
    requires u < 0x10000
    ensures SpellsUnit(u, EscapeText(u))
  {
    var high, low := u / 256, u % 256;
    var digits := [high / 16, high % 16, low / 16, low % 16];
    HexLetterSpelt(high / 16);
    HexLetterSpelt(high % 16);
    HexLetterSpelt(low / 16);
    HexLetterSpelt(low % 16);
    assert EscapeText(u)[2..] == HexText(u);
    assert InLower(digits, HexText(u)) && Worth(digits) == u;
  }

  /** The one spelling of a character in a reply: its letter if it has one, itself if it is
      printable ASCII, and otherwise one code unit or the two of its surrogate pair. */
  ghost predicate SpeltAs(c: codepoint, text: bytes) {
    if c in LETTERS then LETTERS[c] as int < 0x80 && text == [BACKSLASH, LETTERS[c] as int]
    else if ' ' as int <= c <= '~' as int then text == [c]
    else if c <= 0xFFFF then SpellsUnit(c, text)
    else |text| == 12 && exists h, l | High(h) && Low(l) ::
           Join(h, l) == c && SpellsUnit(h, text[..6]) && SpellsUnit(l, text[6..])
  }

  lemma PointSpelt(c: codepoint, rest: bytes) returns (text: bytes)
    ensures SpeltAs(c, text) && DumpChars(Encode(c) + rest) == text + DumpChars(rest)
  {
    NextReadsEncoded(c, rest);
    Dropped(Encode(c), rest);
    NoShortEscape(c, rest);
    if c in LETTERS {
      text := [BACKSLASH, LETTERS[c] as int];
      assert (Encode(c) + rest)[1..] == rest;
    } else {
      text := PointText(c);
      PointTextSpelt(c);
    }
  }

  lemma PointTextSpelt(c: codepoint)
    requires c !in LETTERS
    ensures SpeltAs(c, PointText(c))
  {
    if c > 0xFFFF {
      var h, l := HighOf(c), LowOf(c);
      EscapeTextSpelt(h);
      EscapeTextSpelt(l);
      Dropped(EscapeText(h), EscapeText(l));
      assert Join(h, l) == c;
    } else {
      EscapeTextSpelt(c);
    }
  }

  /** A dumped string is the spelling of its characters, one after the other. */
  lemma {:induction false} DumpSpelt(cs: seq<codepoint>) returns (texts: seq<bytes>)
    ensures |texts| == |cs| && forall i | 0 <= i < |cs| :: SpeltAs(cs[i], texts[i])
    ensures DumpChars(EncodeAll(cs)) == Concatenated(texts)
  {
    texts := [];
    if cs != [] {
      var first := PointSpelt(cs[0], EncodeAll(cs[1..]));
      var others := DumpSpelt(cs[1..]);
      texts := [first] + others;
      assert texts[1..] == others;
    }
  }

  lemma DumpTextSpelt(s: bytes) returns (texts: seq<bytes>)
    requires Wtf8(s)
    ensures |texts| == |DecodeAll(s)| && forall i | 0 <= i < |texts| :: SpeltAs(DecodeAll(s)[i], texts[i])
    ensures DumpText(s) == ['"' as int] + (Concatenated(texts) + ['"' as int])
  {
    Wtf8Decodes(s);
    texts := DumpSpelt(DecodeAll(s));
  }

  function Concatenated(texts: seq<bytes>): bytes {
    if texts == [] then [] else texts[0] + Concatenated(texts[1..])
  }

  /** Surrogate pairs, taken in order, stand for the characters beyond the basic plane, from
      U+10000 to U+10FFFF in order: there is no other such correspondence. */
  lemma PairsInOrder(h: nat, l: nat, h': nat, l': nat)
    requires High(h) && Low(l) && High(h') && Low(l')
    ensures Join(h, l) < Join(h', l') <==> h < h' || (h == h' && l < l')
    ensures Join(0xD800, 0xDC00) == 0x10000 && Join(0xDBFF, 0xDFFF) == 0x10FFFF
  {
  }

  /** What takes the place of a maximal subpart is U+FFFD. */
  lemma ReplacementSpelt()
    ensures REPLACEMENT == Encode(0xFFFD)
  {
  }

  // ----- Integers

  function Power(base: nat, n: nat): nat { if n == 0 then 1 else base * Power(base, n - 1) }

  lemma DecimalDigit(b: byte)
    requires b as char in "0123456789"
    ensures AllDigits([b]) && Decimal([b]) == b - '0' as int
  {
    assert [b][..0] == [];
  }

  /** Digits count by their place: a run of them is worth its front, shifted, and its end. */
  lemma {:induction false} DecimalPlaces(a: bytes, b: bytes)
    requires AllDigits(a) && AllDigits(b)
    ensures AllDigits(a + b) && Decimal(a + b) == Decimal(a) * Power(10, |b|) + Decimal(b)
    decreases |b|
  {
    if b == [] {
      assert a + b == a;
    } else {
      var front, last := b[..|b| - 1], b[|b| - 1];
      DecimalPlaces(a, front);
      assert (a + b)[..|a + b| - 1] == a + front && (a + b)[|a + b| - 1] == last;
      TenTimes(Decimal(a), Power(10, |front|), Decimal(front));
    }
  }

  lemma TenTimes(x: nat, p: nat, y: nat)
    ensures 10 * (x * p + y) == x * (10 * p) + 10 * y
  {
  }

  /** The integer a literal denotes. */
  function Denoted(minus: bool, whole: bytes): int
    requires AllDigits(whole)
  {
    if minus then -(Decimal(whole) as int) else Decimal(whole)
  }

  /** An integer literal is kept as a number when it is one of 64 bits, and otherwise as its
      text; it is refused when it has more digits than the limit. */
  lemma IntegersSpelt(minus: bool, whole: bytes, lim: Limits)
    requires WholeShaped(whole) && lim.depth >= 1
    ensures var text := (if minus then ['-' as int] else []) + whole;
            var n := Denoted(minus, whole);
            ReadDocument(text, lim)
            == if |whole| > lim.digits then None
               else if -(Power(2, 63) as int) <= n < Power(2, 63) then Some(Int(n)) else Some(Raw(text))
  {
    var t := Number(minus, whole, [], NoExponent);
    IntegerSourceIs(minus, whole);
    assert [] + (Source(t) + []) == Source(t);
    DerivedDocumentIsRead(Source(t), [], t, [], lim);
    Int64Range(Denoted(minus, whole));
  }

  lemma IntegerSourceIs(minus: bool, whole: bytes)
    requires WholeShaped(whole)
    ensures var t := Number(minus, whole, [], NoExponent);
            && WellShaped(t) && Depth(t) == 1
            && Source(t) == (if minus then ['-' as int] else []) + whole
            && Meaning(t) == if FitsInt64(Denoted(minus, whole)) then Int(Denoted(minus, whole)) else Raw(Source(t))
  {
    PlainNumberText(minus, whole);
  }

  lemma Int64Range(n: int)
    ensures FitsInt64(n) <==> -(Power(2, 63) as int) <= n < Power(2, 63)
  {
    PowerOfTwo();
  }

  lemma PowerOfTwo()
    ensures Power(2, 63) == 0x8000_0000_0000_0000
  {
    assert Power(2, 4) == 0x10;
    PowerSum(4, 4);
    PowerSum(8, 8);
    PowerSum(16, 16);
    PowerSum(32, 16);
    PowerSum(48, 8);
    PowerSum(56, 4);
    assert Power(2, 3) == 8;
    PowerSum(60, 3);
  }

  lemma {:induction false} PowerSum(a: nat, b: nat)
    ensures Power(2, a + b) == Power(2, a) * Power(2, b)
  {
    if b > 0 {
      PowerSum(a, b - 1);
      assert Power(2, a + b) == 2 * Power(2, a + (b - 1));
      assert Power(2, a) * (2 * Power(2, b - 1)) == 2 * (Power(2, a) * Power(2, b - 1));
    }
  }
}
