/** From a request line to its response (cpp/src/protocol.cpp), and what may be said of
    every reply on the wire. */
module Protocol {
  import opened Options
  import opened Bytes
  import opened Utf8
  import opened Json
  import opened Grammar
  import opened Reader
  import opened Parsing
  import opened KeySort
  import opened Serializer
  import opened Sanitizer
  import opened Soundness
  import opened RoundTrip
  import opened Meanings

  /** The bytes of an ASCII string literal. */
  function Chars(s: string): (r: bytes)
    requires forall i | 0 <= i < |s| :: 0x20 <= s[i] as int <= 0x7E
    ensures |r| == |s| && forall i | 0 <= i < |s| :: r[i] == s[i] as int
  {
    seq(|s|, i requires 0 <= i < |s| => s[i] as int)
  }

  const STATUS: bytes := Chars("status")
  const STATE: bytes := Chars("state")
  const MESSAGE: bytes := Chars("message")
  const COMMAND: bytes := Chars("command")
  const SEQUENCE: bytes := Chars("sequence")
  const ERROR_CODE: bytes := Chars("error_code")

  /** Sanitise, then parse the whole line as one document. */
  function ParsedLine(line: bytes, lim: Limits): Option<Value> { ReadDocument(Sanitize(line), lim) }

  method Parse(text: bytes, lim: Limits) returns (r: Option<Value>)
    ensures r == ParsedLine(text, lim)
  {
    var clean := SanitizeUtf8(text);
    var parser := new Parser(clean, lim);
    r := parser.ParseDocument();
  }

  /** An absent sequence and an explicit null are the same case. */
  function SequenceOf(request: Value): Value {
    match Find(request, SEQUENCE)
    case Some(v) => v
    case None => Null
  }

  function StatusMember(s: string): (bytes, Value)
    requires forall i | 0 <= i < |s| :: 0x20 <= s[i] as int <= 0x7E
  {
    (STATUS, Text(Chars(s)))
  }

  function CodeMember(s: string): (bytes, Value)
    requires forall i | 0 <= i < |s| :: 0x20 <= s[i] as int <= 0x7E
  {
    (ERROR_CODE, Text(Chars(s)))
  }

  function BuildResponse(request: Value): Value {
    if !request.Object? then
      Object([StatusMember("error"), CodeMember("INVALID_MESSAGE_TYPE"),
              (MESSAGE, Text(Chars("Request must be a JSON object")))])
    else
      var command := Find(request, COMMAND);
      if command == None || command.value.Null? then
        Object([StatusMember("error"), CodeMember("MISSING_COMMAND"), (SEQUENCE, SequenceOf(request))])
      else if command.value == Text(STATUS) then
        Object([StatusMember("ok"), (STATE, Text(Chars("READY"))), (SEQUENCE, SequenceOf(request))])
      else
        Object([StatusMember("error"), CodeMember("UNSUPPORTED_COMMAND"), (COMMAND, command.value),
                (SEQUENCE, SequenceOf(request))])
  }

  const INVALID_JSON: Value := Object([StatusMember("error"), CodeMember("INVALID_JSON")])

  function HandleRequestLine(line: bytes, lim: Limits): Value {
    match ParsedLine(line, lim)
    case None => INVALID_JSON
    case Some(request) => BuildResponse(request)
  }

  /** The bytes of one reply, up to its line feed. */
  function Reply(line: bytes, lim: Limits, fmt: Format): bytes { Dump(HandleRequestLine(line, lim), fmt) }

  // ----- Responses are canonical

  lemma {:induction false} AsciiIsWtf8(s: bytes)
    requires Ascii(s)
    ensures Wtf8(s)
  {
    AsciiPoints(s);
    var cs: seq<codepoint> := s;
    assert NoPair(cs);
  }

  lemma {:induction false} AsciiPoints(s: bytes)
    requires Ascii(s)
    ensures EncodeAll(s) == s
  {
    if s != [] {
      AsciiPoints(s[1..]);
      assert s == [s[0]] + s[1..];
    }
  }

  lemma LiteralIsWtf8(s: string)
    requires forall i | 0 <= i < |s| :: 0x20 <= s[i] as int <= 0x7E
    ensures Wtf8(Chars(s))
  {
    AsciiIsWtf8(Chars(s));
  }

  lemma KeysAreWtf8()
    ensures Wtf8(STATUS) && Wtf8(STATE) && Wtf8(MESSAGE) && Wtf8(COMMAND) && Wtf8(SEQUENCE) && Wtf8(ERROR_CODE)
  {
    LiteralIsWtf8("status");
    LiteralIsWtf8("state");
    LiteralIsWtf8("message");
    LiteralIsWtf8("command");
    LiteralIsWtf8("sequence");
    LiteralIsWtf8("error_code");
  }

  lemma KeysAreDistinct()
    ensures |STATUS| == 6 && |STATE| == 5 && |MESSAGE| == 7 && |COMMAND| == 7 && |SEQUENCE| == 8 && |ERROR_CODE| == 10
    ensures MESSAGE != COMMAND
  {
    assert MESSAGE[0] == 'm' as int && COMMAND[0] == 'c' as int;
  }

  ghost predicate Embeddable(v: Value, lim: Limits) {
    lim.depth >= 2 && Canonical(v) && ValueWithin(v, lim.depth - 1, lim.digits)
  }

  lemma FoundIsEmbeddable(request: Value, key: bytes, lim: Limits)
    requires request.Object? && Canonical(request) && ValueWithin(request, lim.depth, lim.digits) && lim.depth >= 2
    ensures Find(request, key).Some? ==> Embeddable(Find(request, key).value, lim)
    ensures Find(request, key).Some? && DoubleFree(request) ==> DoubleFree(Find(request, key).value)
  {
    var i := IndexOf(request.members, key);
    if i < |request.members| {
      assert CanonicalMember(request.members[i]) && MemberWithin(request.members[i], lim.depth - 1, lim.digits);
      assert DoubleFree(request) ==> DoubleFreeMember(request.members[i]);
    }
  }

  /** A response built from values that fit one level down is canonical and within bounds. */
  lemma ResponseOf(members: seq<(bytes, Value)>, lim: Limits)
    requires lim.depth >= 2 && Distinct(members)
    requires forall i | 0 <= i < |members| :: Wtf8(members[i].0) && Embeddable(members[i].1, lim)
    ensures Canonical(Object(members)) && ValueWithin(Object(members), lim.depth, lim.digits)
    ensures (forall i | 0 <= i < |members| :: DoubleFree(members[i].1)) ==> DoubleFree(Object(members))
  {
    forall i | 0 <= i < |members|
      ensures CanonicalMember(members[i]) && MemberWithin(members[i], lim.depth - 1, lim.digits)
      ensures DoubleFree(members[i].1) ==> DoubleFreeMember(members[i])
    {
    }
  }

  lemma LiteralIsEmbeddable(s: string, lim: Limits)
    requires lim.depth >= 2 && forall i | 0 <= i < |s| :: 0x20 <= s[i] as int <= 0x7E
    ensures Embeddable(Text(Chars(s)), lim)
  {
    LiteralIsWtf8(s);
  }

  ghost predicate GoodResponse(v: Value, lim: Limits, doubleFree: bool) {
    Canonical(v) && ValueWithin(v, lim.depth, lim.digits) && (doubleFree ==> DoubleFree(v))
  }

  lemma TwoAreGood(a: (bytes, Value), b: (bytes, Value), lim: Limits)
    requires a.0 != b.0 && Wtf8(a.0) && Wtf8(b.0) && Embeddable(a.1, lim) && Embeddable(b.1, lim)
    ensures GoodResponse(Object([a, b]), lim, DoubleFree(a.1) && DoubleFree(b.1))
  {
    ResponseOf([a, b], lim);
  }

  lemma ThreeAreGood(a: (bytes, Value), b: (bytes, Value), c: (bytes, Value), lim: Limits)
    requires a.0 != b.0 && a.0 != c.0 && b.0 != c.0 && Wtf8(a.0) && Wtf8(b.0) && Wtf8(c.0)
    requires Embeddable(a.1, lim) && Embeddable(b.1, lim) && Embeddable(c.1, lim)
    ensures GoodResponse(Object([a, b, c]), lim, DoubleFree(a.1) && DoubleFree(b.1) && DoubleFree(c.1))
  {
    ResponseOf([a, b, c], lim);
  }

  lemma FourAreGood(a: (bytes, Value), b: (bytes, Value), c: (bytes, Value), d: (bytes, Value), lim: Limits)
    requires a.0 != b.0 && a.0 != c.0 && a.0 != d.0 && b.0 != c.0 && b.0 != d.0 && c.0 != d.0
    requires Wtf8(a.0) && Wtf8(b.0) && Wtf8(c.0) && Wtf8(d.0)
    requires Embeddable(a.1, lim) && Embeddable(b.1, lim) && Embeddable(c.1, lim) && Embeddable(d.1, lim)
    ensures GoodResponse(Object([a, b, c, d]), lim, DoubleFree(a.1) && DoubleFree(b.1) && DoubleFree(c.1)
                         && DoubleFree(d.1))
  {
    ResponseOf([a, b, c, d], lim);
  }

  lemma InvalidJsonIsGood(lim: Limits)
    requires lim.depth >= 2
    ensures GoodResponse(INVALID_JSON, lim, true)
  {
    KeysAreWtf8();
    KeysAreDistinct();
    LiteralIsEmbeddable("error", lim);
    LiteralIsEmbeddable("INVALID_JSON", lim);
    TwoAreGood(StatusMember("error"), CodeMember("INVALID_JSON"), lim);
  }

  lemma InvalidTypeIsGood(message: bytes, lim: Limits)
    requires lim.depth >= 2 && Wtf8(message)
    ensures GoodResponse(Object([StatusMember("error"), CodeMember("INVALID_MESSAGE_TYPE"),
                                 (MESSAGE, Text(message))]), lim, true)
  {
    KeysAreWtf8();
    KeysAreDistinct();
    LiteralIsEmbeddable("error", lim);
    LiteralIsEmbeddable("INVALID_MESSAGE_TYPE", lim);
    ThreeAreGood(StatusMember("error"), CodeMember("INVALID_MESSAGE_TYPE"), (MESSAGE, Text(message)), lim);
  }

  lemma ObjectResponseIsGood(request: Value, lim: Limits)
    requires lim.depth >= 2 && request.Object?
    requires Canonical(request) && ValueWithin(request, lim.depth, lim.digits)
    ensures GoodResponse(BuildResponse(request), lim, DoubleFree(request))
  {
    FoundIsEmbeddable(request, SEQUENCE, lim);
    FoundIsEmbeddable(request, COMMAND, lim);
    var command := Find(request, COMMAND);
    var sequence := SequenceOf(request);
    assert Embeddable(sequence, lim) && (DoubleFree(request) ==> DoubleFree(sequence));
    if command == None || command.value.Null? {
      MissingIsGood(sequence, lim);
    } else if command.value == Text(STATUS) {
      ReadyIsGood(sequence, lim);
    } else {
      UnsupportedIsGood(command.value, sequence, lim);
    }
  }

  lemma MissingIsGood(sequence: Value, lim: Limits)
    requires Embeddable(sequence, lim)
    ensures GoodResponse(Object([StatusMember("error"), CodeMember("MISSING_COMMAND"), (SEQUENCE, sequence)]), lim,
                         DoubleFree(sequence))
  {
    KeysAreWtf8();
    KeysAreDistinct();
    LiteralIsEmbeddable("error", lim);
    LiteralIsEmbeddable("MISSING_COMMAND", lim);
    ThreeAreGood(StatusMember("error"), CodeMember("MISSING_COMMAND"), (SEQUENCE, sequence), lim);
  }

  lemma ReadyIsGood(sequence: Value, lim: Limits)
    requires Embeddable(sequence, lim)
    ensures GoodResponse(Object([StatusMember("ok"), (STATE, Text(Chars("READY"))), (SEQUENCE, sequence)]), lim,
                         DoubleFree(sequence))
  {
    KeysAreWtf8();
    KeysAreDistinct();
    LiteralIsEmbeddable("ok", lim);
    LiteralIsEmbeddable("READY", lim);
    ThreeAreGood(StatusMember("ok"), (STATE, Text(Chars("READY"))), (SEQUENCE, sequence), lim);
  }

  lemma UnsupportedIsGood(command: Value, sequence: Value, lim: Limits)
    requires Embeddable(command, lim) && Embeddable(sequence, lim)
    ensures GoodResponse(Object([StatusMember("error"), CodeMember("UNSUPPORTED_COMMAND"), (COMMAND, command),
                                 (SEQUENCE, sequence)]), lim,
                         DoubleFree(command) && DoubleFree(sequence))
  {
    KeysAreWtf8();
    KeysAreDistinct();
    LiteralIsEmbeddable("error", lim);
    LiteralIsEmbeddable("UNSUPPORTED_COMMAND", lim);
    FourAreGood(StatusMember("error"), CodeMember("UNSUPPORTED_COMMAND"), (COMMAND, command), (SEQUENCE, sequence),
                lim);
  }

  /** Whether a line carries a finite double that the response could repeat. */
  predicate LineDoubleFree(line: bytes, lim: Limits) {
    ParsedLine(line, lim).Some? ==> DoubleFree(ParsedLine(line, lim).value)
  }

  /** The response to any line stays within the protocol's own bounds. */
  lemma ResponseIsGood(line: bytes, lim: Limits)
    requires lim.depth >= 2
    ensures GoodResponse(HandleRequestLine(line, lim), lim, LineDoubleFree(line, lim))
  {
    SanitizedIsWellFormed(line);
    match ParsedLine(line, lim)
    case None => InvalidJsonIsGood(lim);
    case Some(request) =>
      ParsedIsCanonical(Sanitize(line), lim);
      if request.Object? {
        ObjectResponseIsGood(request, lim);
      } else {
        LiteralIsWtf8("Request must be a JSON object");
        InvalidTypeIsGood(Chars("Request must be a JSON object"), lim);
      }
  }

  lemma PrintableIsAscii(s: bytes)
    requires Printable(s)
    ensures Ascii(s) && LF !in s
  {
  }

  /** Every reply to a line without finite doubles is one frame of printable ASCII, and as a
      request it parses to the response it was made from, members in key order. */
  lemma ReplyIsARequest(line: bytes, lim: Limits, fmt: Format)
    requires lim.depth >= 2 && LineDoubleFree(line, lim)
    ensures Printable(Reply(line, lim, fmt)) && LF !in Reply(line, lim, fmt)
    ensures ParsedLine(Reply(line, lim, fmt), lim) == Some(Arranged(HandleRequestLine(line, lim)))
  {
    ResponseIsGood(line, lim);
    var v := HandleRequestLine(line, lim);
    DumpIsPrintable(v, fmt);
    PrintableIsAscii(Dump(v, fmt));
    AsciiPassesUnchanged(Dump(v, fmt));
    CanonicalRoundTrip(v, fmt, lim);
  }

  /** A value serialised, parsed and serialised again gives the same bytes. */
  lemma DumpIsStable(v: Value, fmt: Format, lim: Limits)
    requires Canonical(v) && DoubleFree(v) && ValueWithin(v, lim.depth, lim.digits)
    ensures ParsedLine(Dump(v, fmt), lim) == Some(Arranged(v))
    ensures Dump(ParsedLine(Dump(v, fmt), lim).value, fmt) == Dump(v, fmt)
  {
    DumpIsPrintable(v, fmt);
    PrintableIsAscii(Dump(v, fmt));
    AsciiPassesUnchanged(Dump(v, fmt));
    CanonicalRoundTrip(v, fmt, lim);
    DumpOfArranged(v, fmt);
  }

  // ----- The over-long reply

  lemma {:induction false} PlainTextIsUnchanged(s: bytes)
    requires PlainText(s)
    ensures DumpChars(s) == s
  {
    if s != [] {
      PlainTextIsUnchanged(s[1..]);
      assert s == [s[0]] + s[1..];
    }
  }

  /** The literal sent for an over-long frame, in two pieces. */
  const TOO_LONG_REPLY: bytes := Chars("{\"error_code\": \"INVALID_JSON\"") + Chars(", \"status\": \"error\"}")

  lemma TooLongPieces(key: bytes, value: bytes)
    requires key == ERROR_CODE && value == Chars("INVALID_JSON")
    ensures Chars("{\"error_code\": \"INVALID_JSON\"")
         == [LBRACE] + (([QUOTE] + (key + [QUOTE])) + (COLON_SPACE + ([QUOTE] + (value + [QUOTE]))))
  {
  }

  lemma TooLongTail(key: bytes, value: bytes)
    requires key == STATUS && value == Chars("error")
    ensures Chars(", \"status\": \"error\"}")
         == (COMMA_SPACE + (([QUOTE] + (key + [QUOTE])) + (COLON_SPACE + ([QUOTE] + (value + [QUOTE]))))) + [RBRACE]
  {
  }

  lemma SortTwo<T>(a: (bytes, T), b: (bytes, T))
    requires LexLess(b.0, a.0)
    ensures Sort([a, b]) == [b, a]
  {
    assert [a, b][1..] == [b];
    assert Sort([b]) == [b];
    assert Insert(a, [b]) == [b] + Insert(a, []);
  }

  /** What an over-long frame is answered with is the serialised INVALID_JSON response. */
  lemma TooLongReplyIsInvalidJson(fmt: Format)
    ensures Dump(INVALID_JSON, fmt) == TOO_LONG_REPLY
  {
    var key, value := ERROR_CODE, Chars("INVALID_JSON");
    var status, error := STATUS, Chars("error");
    TooLongPieces(key, value);
    TooLongTail(status, error);
    assert LexLess(key, status) by { assert key[0] == 'e' as int && status[0] == 's' as int; }
    TwoMembers(status, error, key, value, fmt);
  }

  predicate PlainText(s: bytes) {
    forall i | 0 <= i < |s| :: 0x20 <= s[i] < 0x7F && s[i] != QUOTE && s[i] != BACKSLASH
  }

  /** The text of an object with two plain string members, the second of which sorts first. */
  lemma TwoMembers(k1: bytes, s1: bytes, k2: bytes, s2: bytes, fmt: Format)
    requires LexLess(k2, k1) && PlainText(k1) && PlainText(s1) && PlainText(k2) && PlainText(s2)
    ensures Dump(Object([(k1, Text(s1)), (k2, Text(s2))]), fmt)
         == ([LBRACE] + (([QUOTE] + (k2 + [QUOTE])) + (COLON_SPACE + ([QUOTE] + (s2 + [QUOTE])))))
            + ((COMMA_SPACE + (([QUOTE] + (k1 + [QUOTE])) + (COLON_SPACE + ([QUOTE] + (s1 + [QUOTE]))))) + [RBRACE])
  {
    PlainTextIsUnchanged(k1);
    PlainTextIsUnchanged(s1);
    PlainTextIsUnchanged(k2);
    PlainTextIsUnchanged(s2);
    var a, b := (k1, DumpText(s1)), (k2, DumpText(s2));
    var ms := [(k1, Text(s1)), (k2, Text(s2))];
    DumpMembersMapped(ms, fmt);
    assert DumpMembers(ms, fmt) == [a, b];
    SortTwo(a, b);
    var ts := MemberTexts([b, a]);
    TwoJoined(ts);
    Assoc(ts[0], COMMA_SPACE + ts[1], [RBRACE]);
    Assoc([LBRACE], ts[0], (COMMA_SPACE + ts[1]) + [RBRACE]);
  }

  lemma TwoJoined(ts: seq<bytes>)
    requires |ts| == 2
    ensures Joined(ts) == ts[0] + (COMMA_SPACE + ts[1])
  {
    assert ts[1..] == [ts[1]];
    assert Joined([ts[1]]) == ts[1] + [];
  }
}
