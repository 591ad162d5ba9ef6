/** Whole conversations: what goes out on the wire, read back and compared between the two
    implementations (cpp/src/server.cpp:163-274, simulator/simulator.py:328-443). */
module OneProtocol {
  import opened Bytes
  import opened Utf8
  import opened Json
  import opened Grammar
  import opened Reader
  import opened Sanitizer
  import opened Soundness
  import opened RoundTrip
  import opened Serializer
  import opened Meanings
  import opened Protocol
  import opened Replies
  import opened Nesting
  import opened Framing
  import opened Connections
  import opened PythonDut

  // ----- One line for each reply

  /** The formatter of doubles writes no control characters. */
  ghost predicate Plain(fmt: Format) { forall token :: Printable(fmt(token)) }

  lemma DumpIsOneLine(v: Value, fmt: Format)
    requires Canonical(v) && (DoubleFree(v) || Plain(fmt))
    ensures LF !in Dump(v, fmt)
  {
    DumpIsPrintable(v, fmt);
    PrintableIsAscii(Dump(v, fmt));
  }

  lemma TooLongReplyIsOneLine(fmt: Format)
    ensures LF !in TOO_LONG_REPLY
  {
    TooLongReplyIsInvalidJson(fmt);
    InvalidJsonIsGood(Limits(2, 0));
    DumpIsOneLine(INVALID_JSON, fmt);
  }

  lemma ReplyIsOneLine(payload: bytes, lim: Limits, fmt: Format)
    requires lim.depth >= 2 && (LineDoubleFree(payload, lim) || Plain(fmt))
    ensures LF !in Reply(payload, lim, fmt)
  {
    ResponseIsGood(payload, lim);
    DumpIsOneLine(HandleRequestLine(payload, lim), fmt);
  }

  lemma PythonReplyIsOneLine(payload: bytes, cfg: Decoding, fmt: Format)
    requires cfg.lim.depth >= 2 && cfg.stack >= cfg.lim.depth && Plain(fmt)
    ensures LF !in PythonReply(payload, cfg, fmt)
  {
    var wide := Limits(cfg.stack, cfg.lim.digits);
    InvalidJsonIsGood(wide);
    SanitizedIsWellFormed(payload);
    if PythonDecoded(Sanitize(payload), cfg).Some? {
      ParsedIsCanonical(Sanitize(payload), wide);
      ResponseIsCanonical(PythonDecoded(Sanitize(payload), cfg).value, wide);
    }
    DumpIsOneLine(PythonResponse(payload, cfg), fmt);
  }

  /** When no request holds a double, or doubles are printed plainly, splitting the reply
      stream at line feeds recovers the replies one to one, one for each event. */
  lemma RepliesRecovered(events: seq<Event>, lim: Limits, fmt: Format)
    requires lim.depth >= 2
    requires Plain(fmt) || forall e | e in events && e.Answer? :: LineDoubleFree(e.payload, lim)
    ensures Lines(Render(events, lim, fmt)) == Texts(events, lim, fmt)
    ensures |Lines(Render(events, lim, fmt))| == |events|
  {
    var texts := Texts(events, lim, fmt);
    forall i | 0 <= i < |events|
      ensures LF !in texts[i]
    {
      match events[i]
      case Answer(payload) =>
        assert events[i] in events;
        ReplyIsOneLine(payload, lim, fmt);
      case TooLong => TooLongReplyIsOneLine(fmt);
    }
    LinesOfWire(texts);
  }

  // ----- Both sides

  /** No request of the stream hides its depth from the Python side's check. */
  ghost predicate DepthShown(events: seq<Event>, cfg: Decoding) {
    forall e | e in events && e.Answer? :: !HidesDepth(Sanitize(e.payload), cfg)
  }

  ghost predicate OneLiners(texts: seq<bytes>) { forall i | 0 <= i < |texts| :: LF !in texts[i] }

  lemma SameText(e: Event, cfg: Decoding, fmt: Format)
    requires cfg.stack >= cfg.lim.depth
    ensures PythonText(e, cfg, fmt) == ReplyText(e, cfg.lim, fmt)
            <==> (e.Answer? ==> !HidesDepth(Sanitize(e.payload), cfg))
  {
    if e.Answer? { RepliesAgree(e.payload, cfg, fmt); }
  }

  lemma SameTexts(events: seq<Event>, cfg: Decoding, fmt: Format)
    requires cfg.stack >= cfg.lim.depth
    ensures PythonTexts(events, cfg, fmt) == Texts(events, cfg.lim, fmt) <==> DepthShown(events, cfg)
  {
    var p, t := PythonTexts(events, cfg, fmt), Texts(events, cfg.lim, fmt);
    forall i | 0 <= i < |events|
      ensures p[i] == t[i] <==> (events[i].Answer? ==> !HidesDepth(Sanitize(events[i].payload), cfg))
    {
      SameText(events[i], cfg, fmt);
    }
    if DepthShown(events, cfg) {
      forall i | 0 <= i < |events|
        ensures p[i] == t[i]
      {
        assert events[i] in events;
      }
      assert p == t;
    }
    if p == t {
      forall e | e in events && e.Answer?
        ensures !HidesDepth(Sanitize(e.payload), cfg)
      {
        var i :| 0 <= i < |events| && events[i] == e;
        assert p[i] == t[i];
      }
    }
  }

  lemma SameWire(a: seq<bytes>, b: seq<bytes>)
    requires OneLiners(a) && OneLiners(b)
    ensures Wire(a) == Wire(b) <==> a == b
  {
    LinesOfWire(a);
    LinesOfWire(b);
  }

  /** The two DUTs send the same bytes over a whole conversation if and only if `readline`
      cuts no frame inside its trailing carriage returns and no request hides its depth.
      `HandleConnection` sends the native bytes however the stream is cut into chunks. */
  lemma ConversationsAgreeExactly(s: bytes, max: nat, cfg: Decoding, fmt: Format)
    requires cfg.stack >= cfg.lim.depth
    requires OneLiners(Texts(Events(s, true, max), cfg.lim, fmt))
             && OneLiners(PythonTexts(PythonEvents(s, max), cfg, fmt))
    ensures PythonRender(PythonEvents(s, max), cfg, fmt) == Render(Events(s, true, max), cfg.lim, fmt)
       <==> !CutInCarriageReturns(s, max) && DepthShown(Events(s, true, max), cfg)
  {
    var native, python := Events(s, true, max), PythonEvents(s, max);
    FramingsAgreeExactly(s, max);
    SameWire(PythonTexts(python, cfg, fmt), Texts(native, cfg.lim, fmt));
    SameTexts(native, cfg, fmt);
  }

  /** With a plain formatter every reply is one line, so the condition decides every stream. */
  lemma PlainConversationsAgreeExactly(s: bytes, max: nat, cfg: Decoding, fmt: Format)
    requires cfg.lim.depth >= 2 && cfg.stack >= cfg.lim.depth && Plain(fmt)
    ensures PythonRender(PythonEvents(s, max), cfg, fmt) == Render(Events(s, true, max), cfg.lim, fmt)
       <==> !CutInCarriageReturns(s, max) && DepthShown(Events(s, true, max), cfg)
  {
    var native, python := Events(s, true, max), PythonEvents(s, max);
    TooLongReplyIsOneLine(fmt);
    forall i | 0 <= i < |native|
      ensures LF !in Texts(native, cfg.lim, fmt)[i]
    {
      if native[i].Answer? { ReplyIsOneLine(native[i].payload, cfg.lim, fmt); }
    }
    forall i | 0 <= i < |python|
      ensures LF !in PythonTexts(python, cfg, fmt)[i]
    {
      if python[i].Answer? { PythonReplyIsOneLine(python[i].payload, cfg, fmt); }
    }
    ConversationsAgreeExactly(s, max, cfg, fmt);
  }

  // ----- Streams on which they agree

  /** No document the payload may be read as repeats a key. */
  ghost predicate RepeatFree(payload: bytes) {
    forall lead, t, trail | Derives(Sanitize(payload), lead, t, trail) :: NoRepeats(t)
  }

  lemma RepeatFreeShowsDepth(payload: bytes, cfg: Decoding)
    requires RepeatFree(payload)
    ensures !HidesDepth(Sanitize(payload), cfg)
  {
    forall lead, t, trail | Derives(Sanitize(payload), lead, t, trail)
      ensures ValueDepth(Meaning(t)) == Depth(t)
    {
      DepthOfMeaning(t);
    }
  }

  /** On every stream whose carriage returns stand only before a line feed or last, and
      whose requests repeat no key, the two DUTs send the same bytes, however the stream is
      cut into chunks on its way to the native one, and however doubles are printed. */
  lemma DutsSendTheSame(chunks: seq<bytes>, max: nat, cfg: Decoding, fmt: Format)
    requires cfg.stack >= cfg.lim.depth && CleanCR(Concat(chunks))
    requires forall e | e in Events(Concat(chunks), true, max) && e.Answer? :: RepeatFree(e.payload)
    ensures PythonRender(PythonEvents(Concat(chunks), max), cfg, fmt)
         == Render(Events(Concat(chunks), true, max), cfg.lim, fmt)
  {
    var native := Events(Concat(chunks), true, max);
    CleanStreamsAgree(Concat(chunks), max);
    forall e | e in native && e.Answer?
      ensures !HidesDepth(Sanitize(e.payload), cfg)
    {
      RepeatFreeShowsDepth(e.payload, cfg);
    }
    SameTexts(native, cfg, fmt);
  }
}
