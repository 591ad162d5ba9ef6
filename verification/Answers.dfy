/** Which reply a request gets (cpp/src/protocol.cpp:9-49, simulator/simulator.py:299-324), in
    terms of the syntax tree of its line: keys, codes and texts are spelt out. */
module Answers {
  import opened Options
  import opened Bytes
  import opened Json
  import opened Grammar
  import opened Reader
  import opened Sanitizer
  import opened Soundness
  import opened Meanings
  import opened Protocol
  import opened Nesting
  import opened PythonDut

  const STATUS_KEY: bytes := Chars("status")
  const STATE_KEY: bytes := Chars("state")
  const MESSAGE_KEY: bytes := Chars("message")
  const COMMAND_KEY: bytes := Chars("command")
  const SEQUENCE_KEY: bytes := Chars("sequence")
  const CODE_KEY: bytes := Chars("error_code")

  const OK_TEXT: Value := Text(Chars("ok"))
  const ERROR_TEXT: Value := Text(Chars("error"))
  const READY_TEXT: Value := Text(Chars("READY"))
  const STATUS_TEXT: Value := Text(Chars("status"))
  const INVALID_JSON_TEXT: Value := Text(Chars("INVALID_JSON"))
  const INVALID_TYPE_TEXT: Value := Text(Chars("INVALID_MESSAGE_TYPE"))
  const MISSING_TEXT: Value := Text(Chars("MISSING_COMMAND"))
  const UNSUPPORTED_TEXT: Value := Text(Chars("UNSUPPORTED_COMMAND"))
  const OBJECT_TEXT: Value := Text(Chars("Request must be a JSON object"))

  /** The value a member of the request ends up with: its last occurrence. */
  function Asked(t: Tree, key: bytes): Option<Value>
    requires WellShaped(t)
  {
    if t.Obj? then LastValue(t.members, key) else None
  }

  datatype Kind = NotAnObject | NoCommand | StatusAsked | OtherCommand

  function KindOf(t: Tree): Kind
    requires WellShaped(t)
  {
    var command := Asked(t, COMMAND_KEY);
    if !t.Obj? then NotAnObject
    else if command == None || command == Some(Null) then NoCommand
    else if command == Some(STATUS_TEXT) then StatusAsked
    else OtherCommand
  }

  /** These are the members of the reply, no more and no fewer. */
  ghost predicate Holds(r: Value, members: map<bytes, Value>) {
    && r.Object? && |r.members| == |members|
    && forall key :: Find(r, key) == if key in members then Some(members[key]) else None
  }

  /** The members of the reply to each kind of request. */
  function Answer(t: Tree): map<bytes, Value>
    requires WellShaped(t)
  {
    var asked := Asked(t, SEQUENCE_KEY);
    var sequence := if asked == None then Null else asked.value;
    match KindOf(t)
    case NotAnObject => map[STATUS_KEY := ERROR_TEXT, CODE_KEY := INVALID_TYPE_TEXT, MESSAGE_KEY := OBJECT_TEXT]
    case NoCommand => map[STATUS_KEY := ERROR_TEXT, CODE_KEY := MISSING_TEXT, SEQUENCE_KEY := sequence]
    case StatusAsked => map[STATUS_KEY := OK_TEXT, STATE_KEY := READY_TEXT, SEQUENCE_KEY := sequence]
    case OtherCommand =>
      var command := Asked(t, COMMAND_KEY);
      map[STATUS_KEY := ERROR_TEXT, CODE_KEY := UNSUPPORTED_TEXT, SEQUENCE_KEY := sequence,
          COMMAND_KEY := if command == None then Null else command.value]
  }

  // ----- Looking members up

  lemma ThreeHold(a: (bytes, Value), b: (bytes, Value), c: (bytes, Value))
    requires a.0 != b.0 && a.0 != c.0 && b.0 != c.0
    ensures Holds(Object([a, b, c]), map[a.0 := a.1, b.0 := b.1, c.0 := c.1])
  {
    var members := [a, b, c];
    var m := map[a.0 := a.1, b.0 := b.1, c.0 := c.1];
    assert m.Keys == {a.0, b.0, c.0};
    assert |m| == |m.Keys|;
    forall key
      ensures Find(Object(members), key) == if key in m then Some(m[key]) else None
    {
      IndexOfAny(members, key, 0);
      IndexOfAny(members, key, 1);
      IndexOfAny(members, key, 2);
    }
  }

  lemma FourHold(a: (bytes, Value), b: (bytes, Value), c: (bytes, Value), d: (bytes, Value))
    requires a.0 != b.0 && a.0 != c.0 && b.0 != c.0 && d.0 != a.0 && d.0 != b.0 && d.0 != c.0
    ensures Holds(Object([a, b, c, d]), map[a.0 := a.1, b.0 := b.1, c.0 := c.1, d.0 := d.1])
  {
    var members := [a, b, c, d];
    var m := map[a.0 := a.1, b.0 := b.1, c.0 := c.1, d.0 := d.1];
    assert m.Keys == {a.0, b.0, c.0, d.0};
    assert |m| == |m.Keys|;
    forall key
      ensures Find(Object(members), key) == if key in m then Some(m[key]) else None
    {
      IndexOfAny(members, key, 0);
      IndexOfAny(members, key, 1);
      IndexOfAny(members, key, 2);
      IndexOfAny(members, key, 3);
    }
  }

  lemma TwoHold(a: (bytes, Value), b: (bytes, Value))
    requires a.0 != b.0
    ensures Holds(Object([a, b]), map[a.0 := a.1, b.0 := b.1])
  {
    var members := [a, b];
    var m := map[a.0 := a.1, b.0 := b.1];
    assert m.Keys == {a.0, b.0};
    assert |m| == |m.Keys|;
    forall key
      ensures Find(Object(members), key) == if key in m then Some(m[key]) else None
    {
      IndexOfAny(members, key, 0);
      IndexOfAny(members, key, 1);
    }
  }

  // ----- Main results

  /** What was asked is what the request's value says. */
  lemma AskedIsFound(t: Tree, key: bytes)
    requires WellShaped(t) && t.Obj?
    ensures Meaning(t).Object? && Find(Meaning(t), key) == Asked(t, key)
  {
    FindIsLastOccurrence(t, key);
  }

  /** The response to a request has the members its kind calls for, each with its value. */
  lemma ResponseAnswers(t: Tree)
    requires WellShaped(t)
    ensures Holds(BuildResponse(Meaning(t)), Answer(t))
  {
    KeysAreDistinct();
    if !t.Obj? {
      ThreeHold((STATUS_KEY, ERROR_TEXT), (CODE_KEY, INVALID_TYPE_TEXT), (MESSAGE_KEY, OBJECT_TEXT));
    } else {
      AskedIsFound(t, COMMAND_KEY);
      AskedIsFound(t, SEQUENCE_KEY);
      ObjectAnswers(t);
    }
  }

  lemma ObjectAnswers(t: Tree)
    requires WellShaped(t) && t.Obj? && Meaning(t).Object?
    requires Find(Meaning(t), COMMAND_KEY) == Asked(t, COMMAND_KEY)
    requires Find(Meaning(t), SEQUENCE_KEY) == Asked(t, SEQUENCE_KEY)
    ensures Holds(BuildResponse(Meaning(t)), Answer(t))
  {
    KeysAreDistinct();
    var sequence := SequenceOf(Meaning(t));
    match KindOf(t)
    case NoCommand => ThreeHold((STATUS_KEY, ERROR_TEXT), (CODE_KEY, MISSING_TEXT), (SEQUENCE_KEY, sequence));
    case StatusAsked => ThreeHold((STATUS_KEY, OK_TEXT), (STATE_KEY, READY_TEXT), (SEQUENCE_KEY, sequence));
    case OtherCommand => OtherAnswers(t);
  }

  lemma OtherAnswers(t: Tree)
    requires WellShaped(t) && KindOf(t) == OtherCommand && Meaning(t).Object?
    requires Find(Meaning(t), COMMAND_KEY) == Asked(t, COMMAND_KEY)
    requires Find(Meaning(t), SEQUENCE_KEY) == Asked(t, SEQUENCE_KEY)
    ensures Holds(BuildResponse(Meaning(t)), Answer(t))
  {
    KeysAreDistinct();
    var command, sequence := Asked(t, COMMAND_KEY).value, SequenceOf(Meaning(t));
    FourHold((STATUS_KEY, ERROR_TEXT), (CODE_KEY, UNSUPPORTED_TEXT), (COMMAND_KEY, command), (SEQUENCE_KEY, sequence));
    assert Answer(t) == map[STATUS_KEY := ERROR_TEXT, CODE_KEY := UNSUPPORTED_TEXT, COMMAND_KEY := command,
                            SEQUENCE_KEY := sequence];
  }

  const INVALID: map<bytes, Value> := map[STATUS_KEY := ERROR_TEXT, CODE_KEY := INVALID_JSON_TEXT]

  lemma InvalidAnswers()
    ensures Holds(INVALID_JSON, INVALID)
  {
    KeysAreDistinct();
    TwoHold((STATUS_KEY, ERROR_TEXT), (CODE_KEY, INVALID_JSON_TEXT));
  }

  /** The text derives a document within the bounds. */
  ghost predicate Readable(text: bytes, lim: Limits) {
    exists lead, t, trail :: Derives(text, lead, t, trail) && Within(t, lim)
  }

  /** The native DUT answers a line that derives a document within the bounds as its kind
      calls for, and any other line with the error for invalid JSON. */
  lemma NativeAnswers(line: bytes, lim: Limits)
    ensures forall lead, t, trail | Derives(Sanitize(line), lead, t, trail) && Within(t, lim) ::
              Holds(HandleRequestLine(line, lim), Answer(t))
    ensures !Readable(Sanitize(line), lim) ==> Holds(HandleRequestLine(line, lim), INVALID)
  {
    forall lead, t, trail | Derives(Sanitize(line), lead, t, trail) && Within(t, lim)
      ensures Holds(HandleRequestLine(line, lim), Answer(t))
    {
      DerivedDocumentIsRead(Sanitize(line), lead, t, trail, lim);
      ResponseAnswers(t);
    }
    SanitizedIsWellFormed(line);
    if ParsedLine(line, lim) == None {
      InvalidAnswers();
    } else {
      var lead, t, trail := ReadDocumentIsDerived(Sanitize(line), lim);
    }
  }

  /** So does Python, whose bounds are on the value and on the stack. */
  lemma PythonAnswers(payload: bytes, cfg: Decoding)
    ensures forall lead, t, trail | Derives(Sanitize(payload), lead, t, trail) && Accepted(t, cfg) ::
              Holds(PythonResponse(payload, cfg), Answer(t))
    ensures (forall lead, t, trail | Derives(Sanitize(payload), lead, t, trail) :: !Accepted(t, cfg)) ==>
              Holds(PythonResponse(payload, cfg), INVALID)
  {
    var text, wide := Sanitize(payload), Limits(cfg.stack, cfg.lim.digits);
    forall lead, t, trail | Derives(text, lead, t, trail) && Accepted(t, cfg)
      ensures Holds(PythonResponse(payload, cfg), Answer(t))
    {
      DerivedDocumentIsRead(text, lead, t, trail, wide);
      ResponseAnswers(t);
    }
    SanitizedIsWellFormed(payload);
    if PythonDecoded(text, cfg) == None {
      InvalidAnswers();
    } else {
      var lead, t, trail := ReadDocumentIsDerived(text, wide);
      assert Accepted(t, cfg);
    }
  }

  predicate Accepted(t: Tree, cfg: Decoding)
    requires WellShaped(t)
  {
    Depth(t) <= cfg.stack && DigitsWithin(t, cfg.lim.digits) && ValueDepth(Meaning(t)) <= cfg.lim.depth
  }

  /** The error code and the state tell the kind of the request, and a command is echoed as
      it was asked. */
  lemma CodeTellsKind(r: Value, t: Tree)
    requires WellShaped(t) && Holds(r, Answer(t))
    ensures Find(r, CODE_KEY) == Some(INVALID_TYPE_TEXT) <==> !t.Obj?
    ensures Find(r, CODE_KEY) == Some(MISSING_TEXT) <==>
              t.Obj? && (Asked(t, COMMAND_KEY) == None || Asked(t, COMMAND_KEY) == Some(Null))
    ensures Find(r, STATE_KEY) == Some(READY_TEXT) <==> t.Obj? && Asked(t, COMMAND_KEY) == Some(STATUS_TEXT)
    ensures Find(r, STATUS_KEY) == Some(OK_TEXT) <==> Find(r, CODE_KEY) == None
    ensures Find(r, CODE_KEY) == None <==> t.Obj? && Asked(t, COMMAND_KEY) == Some(STATUS_TEXT)
    ensures Find(r, CODE_KEY) == Some(UNSUPPORTED_TEXT) <==>
              t.Obj? && Asked(t, COMMAND_KEY) != None && Asked(t, COMMAND_KEY) != Some(Null)
              && Asked(t, COMMAND_KEY) != Some(STATUS_TEXT)
    ensures Find(r, CODE_KEY) == Some(UNSUPPORTED_TEXT) ==> Find(r, COMMAND_KEY) == Asked(t, COMMAND_KEY)
    ensures Find(r, CODE_KEY) != Some(INVALID_JSON_TEXT)
    ensures t.Obj? ==>
              Find(r, SEQUENCE_KEY)
              == if Asked(t, SEQUENCE_KEY) == None then Some(Null) else Asked(t, SEQUENCE_KEY)
  {
    CodeField(r, t);
    StateField(r, t);
    StatusField(r, t);
    EchoedFields(r, t);
    CodesAreDistinct();
  }

  function CodeOf(k: Kind): Option<Value> {
    match k
    case NotAnObject => Some(INVALID_TYPE_TEXT)
    case NoCommand => Some(MISSING_TEXT)
    case StatusAsked => None
    case OtherCommand => Some(UNSUPPORTED_TEXT)
  }

  lemma StatusField(r: Value, t: Tree)
    requires WellShaped(t) && Holds(r, Answer(t))
    ensures Find(r, STATUS_KEY) == Some(if KindOf(t) == StatusAsked then OK_TEXT else ERROR_TEXT)
  {
    KeysAreDistinct();
  }

  lemma StateField(r: Value, t: Tree)
    requires WellShaped(t) && Holds(r, Answer(t))
    ensures Find(r, STATE_KEY) == if KindOf(t) == StatusAsked then Some(READY_TEXT) else None
  {
    KeysAreDistinct();
  }

  lemma CodeField(r: Value, t: Tree)
    requires WellShaped(t) && Holds(r, Answer(t))
    ensures Find(r, CODE_KEY) == CodeOf(KindOf(t))
  {
    KeysAreDistinct();
  }

  lemma EchoedFields(r: Value, t: Tree)
    requires WellShaped(t) && Holds(r, Answer(t))
    ensures Find(r, COMMAND_KEY) == if KindOf(t) == OtherCommand then Asked(t, COMMAND_KEY) else None
    ensures t.Obj? ==>
              Find(r, SEQUENCE_KEY)
              == if Asked(t, SEQUENCE_KEY) == None then Some(Null) else Asked(t, SEQUENCE_KEY)
  {
    KeysAreDistinct();
  }

  lemma CodesAreDistinct()
    ensures |Chars("INVALID_JSON")| == 12 && |Chars("INVALID_MESSAGE_TYPE")| == 20
    ensures |Chars("MISSING_COMMAND")| == 15 && |Chars("UNSUPPORTED_COMMAND")| == 19
    ensures |Chars("ok")| == 2 && |Chars("error")| == 5
  {
  }
}
