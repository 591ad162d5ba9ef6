/** The parser object of cpp/src/json.cpp:22-428: a cursor into the text that every method
    moves. Each method is proved to do to the unread text what `Reader` says. */
module Parsing {
  import opened Options
  import opened Bytes
  import opened Utf8
  import opened Json
  import opened Grammar
  import opened Reader

  /** A method's result agrees with its specification; on failure the cursor is unspecified. */
  ghost predicate Agrees<T>(r: Option<T>, spec: Parsed<T>, unread: bytes) {
    match r
    case None => spec == Fail
    case Some(v) => spec == Ok(v, unread)
  }

  class Parser {
    const text: bytes
    const lim: Limits
    var position: nat

    ghost predicate Valid()
      reads this
    {
      position <= |text|
    }

    ghost function Unread(): bytes
      requires Valid()
      reads this
    {
      text[position..]
    }

    constructor (text: bytes, lim: Limits)
      ensures Valid() && this.text == text && this.lim == lim && Unread() == text
    {
      this.text := text;
      this.lim := lim;
      this.position := 0;
    }

    method ParseDocument() returns (r: Option<Value>)
      requires Valid()
      modifies this`position
      ensures Valid() && r == ReadDocument(old(Unread()), lim)
    {
      SkipWhitespace();
      r := ParseValue(1);
      if r == None {
        return;
      }
      SkipWhitespace();
      if position != |text| {
        r := None;
      }
    }

    method SkipWhitespace()
      requires Valid()
      modifies this`position
      ensures Valid() && position >= old(position)
      ensures Unread() == SkipSpace(old(Unread()))
    {
      while position < |text|
        invariant Valid() && position >= old(position)
        invariant SkipSpace(Unread()) == SkipSpace(old(Unread()))
      {
        var c := text[position];
        assert Unread()[1..] == text[position + 1..];
        if c == SPACE || c == TAB || c == LF || c == CR {
          position := position + 1;
        } else {
          break;
        }
      }
    }

    method Consume(expected: byte) returns (ok: bool)
      requires Valid()
      modifies this`position
      ensures Valid() && position == old(position) + if ok then 1 else 0
      ensures ok == (old(Unread()) != [] && old(Unread())[0] == expected)
      ensures Unread() == if ok then old(Unread())[1..] else old(Unread())
    {
      ok := position < |text| && text[position] == expected;
      if ok {
        position := position + 1;
      }
    }

    method ConsumeLiteral(literal: bytes) returns (ok: bool)
      requires Valid()
      modifies this`position
      ensures Valid() && position == old(position) + if ok then |literal| else 0
      ensures ok == (literal <= old(Unread()))
      ensures Unread() == if ok then old(Unread())[|literal|..] else old(Unread())
    {
      ok := position + |literal| <= |text| && text[position..position + |literal|] == literal;
      assert ok ==> literal == Unread()[..|literal|];
      assert literal <= Unread() ==> literal == Unread()[..|literal|] == text[position..position + |literal|];
      if ok {
        position := position + |literal|;
      }
    }

    method ParseWord(v: Value) returns (r: Option<Value>)
      requires Valid() && IsWord(v)
      modifies this`position
      ensures Valid() && position >= old(position)
      ensures Agrees(r, ReadWord(old(Unread()), v), Unread())
    {
      var ok := ConsumeLiteral(WordText(v));
      r := if ok then Some(v) else None;
    }

    method ParseValue(depth: nat) returns (r: Option<Value>)
      requires Valid()
      modifies this`position
      ensures Valid() && position >= old(position)
      ensures Agrees(r, ReadValue(old(Unread()), depth, lim), Unread())
      ensures r.Some? ==> position > old(position)
      decreases |text| - position, 2
    {
      if depth > lim.depth {
        return None;
      }
      SkipWhitespace();
      if position >= |text| {
        return None;
      }
      ghost var t := Unread();
      assert t[0] == text[position];
      match text[position]
      case 0x7B => r := ParseObject(depth);
      case 0x5B => r := ParseArray(depth);
      case 0x22 =>
        var s := ParseString();
        r := if s.Some? then Some(Text(s.value)) else None;
      case 0x74 => r := ParseWord(Bool(true));
      case 0x66 => r := ParseWord(Bool(false));
      case 0x6E => r := ParseWord(Null);
      case 0x4E => r := ParseWord(Double(NaN));
      case 0x49 => r := ParseWord(Double(Infinity));
      case 0x2D =>
        var ok := ConsumeLiteral(NEG_INFINITY_WORD);
        if ok {
          r := Some(Double(NegInfinity));
        } else {
          r := ParseNumber();
        }
      case _ => r := ParseNumber();
    }

    method ParseObject(depth: nat) returns (r: Option<Value>)
      requires Valid()
      modifies this`position
      ensures Valid() && position >= old(position)
      ensures Agrees(r, ReadObject(old(Unread()), depth, lim), Unread())
      ensures r.Some? ==> position > old(position)
      decreases |text| - position, 1
    {
      var ok := Consume(LBRACE);
      if !ok {
        return None;
      }
      var members: seq<(bytes, Value)> := [];
      SkipWhitespace();
      ok := Consume(RBRACE);
      if ok {
        return Some(Object(members));
      }
      ghost var spec := ReadMembers(Unread(), depth, lim, []);
      while true
        invariant Valid() && position > old(position)
        invariant ReadMembers(Unread(), depth, lim, members) == spec
        invariant ReadObject(old(Unread()), depth, lim) == spec
        decreases |text| - position
      {
        var m := ParseMember(depth);
        if m == None {
          return None;
        }
        var existing := IndexOf(members, m.value.key);
        if existing != |members| {
          members := members[existing := (m.value.key, m.value.value)];
        } else {
          members := members + [(m.value.key, m.value.value)];
        }
        if m.value.more {
          continue;
        }
        return Some(Object(members));
      }
    }

    /** The reading part of one turn of that loop: key, colon, value, and what follows. */
    method ParseMember(depth: nat) returns (r: Option<OneMember>)
      requires Valid()
      modifies this`position
      ensures Valid() && position >= old(position)
      ensures Agrees(r, ReadMember(old(Unread()), depth, lim), Unread())
      ensures r.Some? ==> position > old(position)
      decreases |text| - position, 3
    {
      var key := ParseKey();
      if key == None {
        return None;
      }
      var value := ParseValue(depth + 1);
      if value == None {
        return None;
      }
      SkipWhitespace();
      var ok := Consume(COMMA);
      if ok {
        return Some(OneMember(key.value, value.value, true));
      }
      ok := Consume(RBRACE);
      if ok {
        return Some(OneMember(key.value, value.value, false));
      }
      return None;
    }

    method ParseKey() returns (key: Option<bytes>)
      requires Valid()
      modifies this`position
      ensures Valid() && position >= old(position)
      ensures Agrees(key, ReadKey(old(Unread())), Unread())
      ensures key.Some? ==> position > old(position)
    {
      SkipWhitespace();
      key := ParseString();
      if key == None {
        return None;
      }
      SkipWhitespace();
      var ok := Consume(COLON);
      if !ok {
        return None;
      }
    }

    method ParseArray(depth: nat) returns (r: Option<Value>)
      requires Valid()
      modifies this`position
      ensures Valid() && position >= old(position)
      ensures Agrees(r, ReadArray(old(Unread()), depth, lim), Unread())
      ensures r.Some? ==> position > old(position)
      decreases |text| - position, 1
    {
      var ok := Consume(LBRACKET);
      if !ok {
        return None;
      }
      var items: seq<Value> := [];
      SkipWhitespace();
      ok := Consume(RBRACKET);
      if ok {
        return Some(Array(items));
      }
      ghost var spec := ReadElements(Unread(), depth, lim, []);
      while true
        invariant Valid() && position > old(position)
        invariant ReadElements(Unread(), depth, lim, items) == spec
        invariant ReadArray(old(Unread()), depth, lim) == spec
        decreases |text| - position
      {
        var value := ParseValue(depth + 1);
        if value == None {
          return None;
        }
        items := items + [value.value];
        SkipWhitespace();
        ok := Consume(COMMA);
        if ok {
          continue;
        }
        ok := Consume(RBRACKET);
        if ok {
          return Some(Array(items));
        }
        return None;
      }
    }

    method ParseString() returns (r: Option<bytes>)
      requires Valid()
      modifies this`position
      ensures Valid() && position >= old(position)
      ensures Agrees(r, ReadString(old(Unread())), Unread())
      ensures r.Some? ==> position > old(position)
    {
      var ok := Consume(QUOTE);
      if !ok {
        return None;
      }
      var out: bytes := [];
      ghost var spec := ReadBody(Unread(), []);
      while position < |text|
        invariant Valid() && position > old(position)
        invariant ReadBody(Unread(), out) == spec
        invariant ReadString(old(Unread())) == spec
      {
        if text[position] == QUOTE {
          assert Unread()[1..] == text[position + 1..];
          position := position + 1;
          return Some(out);
        }
        var piece := ParseCharacter();
        if piece == None {
          return None;
        }
        out := out + piece.value;
      }
      return None;
    }

    /** One byte of a string, or one escape. */
    method ParseCharacter() returns (r: Option<bytes>)
      requires Valid() && position < |text| && text[position] != QUOTE
      modifies this`position
      ensures Valid() && position >= old(position)
      ensures match r
              case None => BodyStep(old(Unread())) == Reject
              case Some(piece) =>
                && BodyStep(old(Unread())) == Push(piece, position - old(position))
                && Unread() == old(Unread())[position - old(position)..]
    {
      ghost var s := Unread();
      var c := text[position];
      position := position + 1;
      assert Unread() == s[1..];
      if c != BACKSLASH {
        return if c < 0x20 then None else Some([c]);
      }
      if position >= |text| {
        return None;
      }
      var escape := text[position];
      position := position + 1;
      assert s[1] == escape && Unread() == s[2..];
      if escape == 0x75 {
        var codePoint := ParseUnicode();
        if codePoint == None {
          return None;
        }
        return Some(Encode(codePoint.value));
      }
      var b := Escaped(escape);
      if b == None {
        return None;
      }
      return Some([b.value]);
    }

    /** The digits of a `\u` escape, and of a second one when the two make a pair. */
    method ParseUnicode() returns (r: Option<codepoint>)
      requires Valid()
      modifies this`position
      ensures Valid() && position >= old(position)
      ensures match r
              case None => UnicodeStep(old(Unread())) == Reject
              case Some(c) => UnicodeStep(old(Unread())) == Push(Encode(c), position - old(position) + 2)
    {
      ghost var s := Unread();
      var code := ParseHex4();
      if code == None {
        return None;
      }
      assert Unread() == s[4..];
      var codePoint: codepoint := code.value;
      if High(codePoint) && position + 1 < |text| && text[position] == BACKSLASH && text[position + 1] == 0x75 {
        var rewind := position;
        position := position + 2;
        assert Unread() == s[4..][2..];
        var low := ParseHex4();
        if low.Some? && Low(low.value) {
          codePoint := Join(codePoint, low.value);
        } else {
          position := rewind;
        }
      }
      return Some(codePoint);
    }

    method ParseHex4() returns (r: Option<nat>)
      requires Valid()
      modifies this`position
      ensures Valid() && position >= old(position)
      ensures r == Hex4(old(Unread()))
      ensures r.Some? ==> position == old(position) + 4
    {
      if position + 4 > |text| {
        return None;
      }
      ghost var s := Unread();
      var value: nat := 0;
      for i := 0 to 4
        invariant position == old(position) + i
        invariant AllHex(s[..i]) && value == Hexadecimal(s[..i])
      {
        var c := text[position];
        position := position + 1;
        assert s[..i + 1][..i] == s[..i] && s[i] == c;
        if !IsHex(c) {
          assert !IsHex(s[..4][i]);
          return None;
        }
        value := 16 * value + HexDigit(c);
      }
      return Some(value);
    }

    method ConsumeDigits() returns (any: bool)
      requires Valid()
      modifies this`position
      ensures Valid() && position == old(position) + DigitRun(old(Unread()))
      ensures any == (DigitRun(old(Unread())) > 0)
    {
      var start := position;
      while position < |text| && IsDigit(text[position])
        invariant Valid() && position >= start
        invariant position - start + DigitRun(Unread()) == DigitRun(old(Unread()))
      {
        assert Unread()[1..] == text[position + 1..];
        position := position + 1;
      }
      any := position > start;
    }

    method ParseNumber() returns (r: Option<Value>)
      requires Valid()
      modifies this`position
      ensures Valid() && position >= old(position)
      ensures Agrees(r, ReadNumber(old(Unread()), lim), Unread())
      ensures r.Some? ==> position > old(position)
    {
      var start := position;
      ghost var s := Unread();
      var isDouble := ScanNumber();
      if isDouble == None {
        NumberByToken(s, isDouble, position - start, lim);
        return None;
      }
      var token := text[start..position];
      TakenFrom(text, start, position);
      NumberByToken(s, isDouble, position - start, lim);
      r := NumberValue(token, isDouble.value);
    }

    /** The value of a number's text: a double stays as it is spelt. */
    method NumberValue(token: bytes, isDouble: bool) returns (r: Option<Value>)
      requires token != []
      ensures r == TokenValue(token, isDouble, lim.digits)
    {
      if isDouble {
        return Some(Double(Finite(token)));
      }
      if |token| - (if token[0] == MINUS then 1 else 0) > lim.digits {
        return None;
      }
      return Some(IntegerValue(token));
    }

    /** Moves over one number; whether it has a fraction or an exponent, or None. */
    method ScanNumber() returns (isDouble: Option<bool>)
      requires Valid()
      modifies this`position
      ensures Valid() && position >= old(position)
      ensures Scanned(old(Unread()), isDouble, position - old(position))
    {
      ghost var s, start := Unread(), position;
      ScanMinus();
      ghost var m := position - start;
      if position >= |text| {
        NoWhole(s);
        return None;
      }
      var ok := ScanWhole();
      if !ok {
        NoWhole(s);
        return None;
      }
      ghost var w := position - start - m;
      ghost var f, e;
      isDouble, f, e := ScanFractionAndExponent();
      MeasuredFrom(s, w, f, e);
    }

    method ScanMinus()
      requires Valid()
      modifies this`position
      ensures Valid() && position == old(position) + MinusRun(old(Unread()))
      ensures Unread() == old(Unread())[MinusRun(old(Unread()))..]
    {
      if position < |text| && text[position] == MINUS {
        assert Unread()[1..] == text[position + 1..];
        position := position + 1;
      }
    }

    method ScanFractionAndExponent() returns (isDouble: Option<bool>, ghost f: nat, ghost e: nat)
      requires Valid()
      modifies this`position
      ensures Valid() && position >= old(position)
      ensures isDouble == None ==>
                || FractionRun(old(Unread())) == None
                || ExponentRun(old(Unread())[FractionRun(old(Unread())).value..]) == None
      ensures isDouble.Some? ==>
                FractionRun(old(Unread())) == Some(f) && ExponentRun(old(Unread())[f..]) == Some(e)
                && position == old(position) + f + e && isDouble.value == (f + e > 0)
    {
      f, e := 0, 0;
      ghost var start := position;
      var fraction := ScanFraction();
      if fraction == None {
        return None, f, e;
      }
      f := position - start;
      var exponent := ScanExponent();
      if exponent == None {
        return None, f, e;
      }
      e := position - start - f;
      return Some(fraction.value || exponent.value), f, e;
    }

    /** The whole part: a lone zero, or a run of digits. */
    method ScanWhole() returns (ok: bool)
      requires Valid()
      modifies this`position
      ensures Valid() && ok == (WholeRun(old(Unread())) > 0) && position >= old(position)
      ensures ok ==> position == old(position) + WholeRun(old(Unread()))
      ensures Unread() == old(Unread())[position - old(position)..]
    {
      if position < |text| && text[position] == ZERO {
        assert Unread()[1..] == text[position + 1..];
        position := position + 1;
        if position < |text| && IsDigit(text[position]) {
          return false;
        }
        return true;
      }
      ok := ConsumeDigits();
    }

    /** The fraction; whether there is one, or None when its point has no digits. */
    method ScanFraction() returns (present: Option<bool>)
      requires Valid()
      modifies this`position
      ensures Valid() && position >= old(position)
      ensures match present
              case None => FractionRun(old(Unread())) == None
              case Some(p) =>
                FractionRun(old(Unread())) == Some(position - old(position)) && p == (position > old(position))
      ensures Unread() == old(Unread())[position - old(position)..]
    {
      if position < |text| && text[position] == DOT {
        assert Unread()[1..] == text[position + 1..];
        position := position + 1;
        var ok := ConsumeDigits();
        return if ok then Some(true) else None;
      }
      return Some(false);
    }

    /** The exponent; whether there is one, or None when its mark has no digits. */
    method ScanExponent() returns (present: Option<bool>)
      requires Valid()
      modifies this`position
      ensures Valid() && position >= old(position)
      ensures match present
              case None => ExponentRun(old(Unread())) == None
              case Some(p) =>
                ExponentRun(old(Unread())) == Some(position - old(position)) && p == (position > old(position))
      ensures Unread() == old(Unread())[position - old(position)..]
    {
      ghost var t := Unread();
      if position < |text| && (text[position] == 0x65 || text[position] == 0x45) {
        position := position + 1;
        assert Unread() == t[1..];
        if position < |text| && (text[position] == PLUS || text[position] == MINUS) {
          position := position + 1;
        }
        assert Unread() == t[1..][SignRun(t[1..])..];
        var ok := ConsumeDigits();
        return if ok then Some(true) else None;
      }
      return Some(false);
    }
  }

  lemma TakenFrom(text: bytes, start: nat, end: nat)
    requires start <= end <= |text|
    ensures text[start..end] == text[start..][..end - start] && text[end..] == text[start..][end - start..]
  {
  }

  /** What the number scanner says of the unread text: nothing, or whether the number of `n`
      bytes has a fraction or an exponent. */
  ghost predicate Scanned(s: bytes, isDouble: Option<bool>, n: int) {
    match isDouble
    case None => Measure(s) == NoNumber
    case Some(d) =>
      var x := Measure(s);
      x.Extent? && n == x.minus + x.whole + x.fraction + x.exponent && d == (x.fraction + x.exponent > 0)
  }

  lemma NoWhole(s: bytes)
    requires WholeRun(s[MinusRun(s)..]) == 0 || s[MinusRun(s)..] == []
    ensures Measure(s) == NoNumber
  {
  }

  lemma MeasuredFrom(s: bytes, w: nat, f: nat, e: nat)
    requires w == WholeRun(s[MinusRun(s)..]) && w > 0
    ensures var rest := s[MinusRun(s)..][w..];
            && (FractionRun(rest) == None || ExponentRun(rest[FractionRun(rest).value..]) == None ==>
                  Measure(s) == NoNumber)
            && (FractionRun(rest) == Some(f) && ExponentRun(rest[f..]) == Some(e) ==>
                  Measure(s) == Extent(MinusRun(s), w, f, e))
  {
  }

  lemma NumberByToken(s: bytes, isDouble: Option<bool>, n: int, lim: Limits)
    requires Scanned(s, isDouble, n)
    ensures isDouble == None ==> ReadNumber(s, lim) == Fail
    ensures isDouble.Some? ==>
              && 0 < n <= |s|
              && ReadNumber(s, lim)
                 == (match TokenValue(s[..n], isDouble.value, lim.digits)
                     case None => Fail
                     case Some(v) => Ok(v, s[n..]))
  {
  }

  function TokenValue(token: bytes, isDouble: bool, digits: nat): Option<Value> {
    if isDouble then Some(Double(Finite(token)))
    else if |token| - MinusRun(token) > digits then None
    else Some(IntegerValue(token))
  }
}
