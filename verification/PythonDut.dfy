/** The Python DUT's side of the protocol (simulator/simulator.py:280-384): its read loop,
    its decoding of a request, and where they match the native side. */
module PythonDut {
  import opened Options
  import opened Bytes
  import opened Utf8
  import opened Json
  import opened Grammar
  import opened Reader
  import opened Serializer
  import opened Sanitizer
  import opened Soundness
  import opened Meanings
  import opened Protocol
  import opened Replies
  import opened Nesting
  import opened Framing

  class DutHandler {
    const stream: bytes
    const max: nat
    const cfg: Decoding
    const fmt: Format
    var position: nat
    var wire: bytes

    ghost predicate Valid()
      reads this
    {
      position <= |stream|
    }

    constructor (stream: bytes, max: nat, cfg: Decoding, fmt: Format)
      ensures this.stream == stream && this.max == max && this.cfg == cfg && this.fmt == fmt
      ensures position == 0 && wire == [] && Valid()
    {
      this.stream := stream;
      this.max := max;
      this.cfg := cfg;
      this.fmt := fmt;
      this.position := 0;
      this.wire := [];
    }

    ghost function Unread(): bytes
      reads this
      requires Valid()
    {
      stream[position..]
    }

    method NextLine(limit: nat) returns (line: bytes)
      requires Valid()
      modifies this`position
      ensures Valid() && line == ReadLine(old(Unread()), limit)
      ensures Unread() == old(Unread())[|line|..] && position == old(position) + |line|
    {
      line := ReadLine(stream[position..], limit);
      position := position + |line|;
    }

    /** Reads until the stream ends or a frame is over the cap, answering as it goes. */
    method Handle()
      requires Valid()
      modifies this
      ensures Valid() && wire == old(wire) + PythonRender(PythonEvents(old(Unread()), max), cfg, fmt)
    {
      while true
        invariant Valid() && Conversation() == old(Conversation())
        decreases |stream| - position
      {
        var stop := HandleNext();
        if stop {
          break;
        }
      }
    }

    /** What is sent in all: the replies so far and those to what is unread. */
    ghost function Conversation(): bytes
      reads this
      requires Valid()
    {
      Told(wire, Unread(), max, cfg, fmt)
    }

    /** One turn of the loop. */
    method HandleNext() returns (stop: bool)
      requires Valid()
      modifies this
      ensures Valid()
      ensures if stop then wire == old(Conversation())
              else position > old(position) && Conversation() == old(Conversation())
    {
      ghost var unread, sent := Unread(), wire;
      var line := NextLine(max + 2);
      if line == [] {
        NothingRead(unread, max, sent, cfg, fmt);
        return true;
      }
      stop := Send(line);
      LineRead(unread, line, max, sent, wire, cfg, fmt);
    }

    method Send(line: bytes) returns (stop: bool)
      modifies this`wire
      ensures stop <==> |RStrip(line)| > max
      ensures wire == old(wire) + ((if stop then TOO_LONG_REPLY else PythonReply(RStrip(line), cfg, fmt)) + [LF])
    {
      var response;
      stop, response := Response(line);
      wire := wire + (response + [LF]);
    }

    /** The reply to a line, and whether it is the last. Decodes first, and strips the
        delimiter from the text. */
    method Response(line: bytes) returns (stop: bool, response: bytes)
      ensures stop <==> |RStrip(line)| > max
      ensures response == if stop then TOO_LONG_REPLY else PythonReply(RStrip(line), cfg, fmt)
    {
      if |RStrip(line)| > max {
        return true, TOO_LONG_REPLY;
      }
      stop := false;
      var raw := RStrip(Sanitize(line));
      StripThenDecode(line);
      var message := DecodeRequest(raw, cfg);
      response := Dump(if message == None then INVALID_JSON else BuildResponse(message.value), fmt);
    }
  }

  /** What is sent for one event, and for several in order. */
  function PythonText(e: Event, cfg: Decoding, fmt: Format): bytes {
    match e
    case Answer(payload) => PythonReply(payload, cfg, fmt)
    case TooLong => TOO_LONG_REPLY
  }

  function PythonTexts(events: seq<Event>, cfg: Decoding, fmt: Format): seq<bytes> {
    Mapped(e => PythonText(e, cfg, fmt), events)
  }

  function PythonRender(events: seq<Event>, cfg: Decoding, fmt: Format): bytes { Wire(PythonTexts(events, cfg, fmt)) }

  lemma RenderFirst(e: Event, rest: seq<Event>, cfg: Decoding, fmt: Format)
    ensures PythonRender([e] + rest, cfg, fmt) == (PythonText(e, cfg, fmt) + [LF]) + PythonRender(rest, cfg, fmt)
  {
    var texts := PythonTexts(rest, cfg, fmt);
    Front(e, rest);
    Front(PythonText(e, cfg, fmt), texts);
    assert PythonTexts([e] + rest, cfg, fmt) == [PythonText(e, cfg, fmt)] + texts;
  }

  /** The whole conversation, with this much on the wire and this much unread. */
  function Told(wire: bytes, unread: bytes, max: nat, cfg: Decoding, fmt: Format): bytes {
    wire + PythonRender(PythonEvents(unread, max), cfg, fmt)
  }

  lemma NothingRead(unread: bytes, max: nat, wire: bytes, cfg: Decoding, fmt: Format)
    requires ReadLine(unread, max + 2) == []
    ensures Told(wire, unread, max, cfg, fmt) == wire
  {
    NothingMore(wire, [], cfg, fmt);
    assert PythonEvents(unread, max) == [];
  }

  /** The next line read and answered, and what is left to tell. */
  lemma LineRead(unread: bytes, line: bytes, max: nat, wire: bytes, now: bytes, cfg: Decoding, fmt: Format)
    requires line == ReadLine(unread, max + 2) && line != []
    requires now == wire
                    + ((if |RStrip(line)| > max then TOO_LONG_REPLY else PythonReply(RStrip(line), cfg, fmt)) + [LF])
    ensures Told(wire, unread, max, cfg, fmt)
         == if |RStrip(line)| > max then now else Told(now, unread[|line|..], max, cfg, fmt)
  {
    if |RStrip(line)| > max {
      NothingMore(wire, TOO_LONG_REPLY + [LF], cfg, fmt);
      assert [TooLong] + [] == [TooLong];
      RenderFirst(TooLong, [], cfg, fmt);
    } else {
      var rest := PythonEvents(unread[|line|..], max);
      RenderFirst(Answer(RStrip(line)), rest, cfg, fmt);
      Assoc(wire, PythonReply(RStrip(line), cfg, fmt) + [LF], PythonRender(rest, cfg, fmt));
    }
  }

  lemma NothingMore(wire: bytes, last: bytes, cfg: Decoding, fmt: Format)
    ensures PythonRender([], cfg, fmt) == [] && wire + [] == wire && last + [] == last
  {
  }

  // ----- The text of a request

  lemma {:induction false} RStripParts(s: bytes)
    ensures var r := s[|RStrip(s)|..]; Ascii(r) && forall i | 0 <= i < |r| :: r[i] == CR || r[i] == LF
  {
    if s != [] && (s[|s| - 1] == CR || s[|s| - 1] == LF) {
      var front := s[..|s| - 1];
      RStripParts(front);
      assert s[|RStrip(s)|..] == front[|RStrip(s)|..] + [s[|s| - 1]];
    }
  }

  lemma {:induction false} RStripUnique(p: bytes, r: bytes)
    requires p == [] || (p[|p| - 1] != CR && p[|p| - 1] != LF)
    requires forall i | 0 <= i < |r| :: r[i] == CR || r[i] == LF
    ensures RStrip(p + r) == p
    decreases |r|
  {
    if r == [] {
      assert p + r == p;
    } else {
      var s := p + r;
      assert s[..|s| - 1] == p + r[..|r| - 1] && s[|s| - 1] == r[|r| - 1];
      RStripUnique(p, r[..|r| - 1]);
    }
  }

  lemma LastOfConcat(a: bytes, b: bytes)
    requires b != []
    ensures a + b != [] && (a + b)[|a + b| - 1] == b[|b| - 1]
  {
  }

  /** The repair never ends in a byte below 0x80 that the text did not end in. */
  lemma {:induction false} LastByteKept(s: bytes)
    requires s != []
    ensures Sanitize(s) != []
    ensures var b := Sanitize(s)[|Sanitize(s)| - 1]; b < 0x80 ==> b == s[|s| - 1]
    decreases |s|
  {
    var n, piece := FirstPiece(s);
    if n < |s| {
      LastByteKept(s[n..]);
      LastOfConcat(piece, Sanitize(s[n..]));
    } else {
      assert s[n..] == [] && piece + [] == piece;
    }
  }

  /** What the scanner outputs first is one ASCII byte or ends in a byte from 0x80 on. */
  lemma FirstPiece(s: bytes) returns (n: nat, piece: bytes)
    requires s != []
    ensures 0 < n <= |s| && piece != [] && Sanitize(s) == piece + Sanitize(s[n..])
    ensures piece[|piece| - 1] < 0x80 ==> n == 1 && piece == [s[0]]
  {
    n := if s[0] < 0x80 then 1 else ValidPrefix(s);
    var seg := FirstSegment(s, n);
    piece := if seg.Character? then seg.m else REPLACEMENT;
  }

  /** Stripping the delimiter before decoding, as the native side does, or after, as Python
      does, gives the same text for every line. */
  lemma StripThenDecode(line: bytes)
    ensures RStrip(Sanitize(line)) == Sanitize(RStrip(line))
  {
    var p := RStrip(line);
    var r := line[|p|..];
    RStripParts(line);
    assert line == p + r;
    SanitizeSplits(p, r);
    AsciiPassesUnchanged(r);
    if p != [] { LastByteKept(p); }
    RStripUnique(Sanitize(p), r);
  }

  // ----- Decoding

  /** What bounds the decoding: the protocol's limits, and how deep a text `json.loads` can
      recurse into before it raises RecursionError. */
  datatype Decoding = Decoding(lim: Limits, stack: nat)

  /** `json.loads` with the digit bound: the grammar and its meaning, as deep as the stack
      allows. */
  function JsonLoads(text: bytes, cfg: Decoding): Option<Value> {
    ReadDocument(text, Limits(cfg.stack, cfg.lim.digits))
  }

  function PythonDecoded(raw: bytes, cfg: Decoding): Option<Value> {
    match JsonLoads(raw, cfg)
    case None => None
    case Some(message) => if ValueDepth(message) > cfg.lim.depth then None else Some(message)
  }

  method DecodeRequest(raw: bytes, cfg: Decoding) returns (r: Option<Value>)
    ensures r == PythonDecoded(raw, cfg)
  {
    r := JsonLoads(raw, cfg);
    if r.Some? {
      var deep := ExceedsNestingLimit(r.value, cfg.lim.depth);
      if deep {
        r := None;
      }
    }
  }

  /** The syntax of the document is deeper than the limit, though not than the stack, while
      its value is not: only repeated keys bring it within the limit. */
  ghost predicate HidesDepth(text: bytes, cfg: Decoding) {
    exists lead, t, trail ::
      && Derives(text, lead, t, trail) && DigitsWithin(t, cfg.lim.digits)
      && ValueDepth(Meaning(t)) <= cfg.lim.depth < Depth(t) <= cfg.stack
  }

  /** Whatever the native parser accepts, Python decodes to the same value; and the two
      decoders differ on a document exactly when it hides its depth. */
  lemma DecodersCompared(text: bytes, cfg: Decoding)
    requires WellFormed(text) && cfg.stack >= cfg.lim.depth
    ensures ReadDocument(text, cfg.lim).Some? ==> PythonDecoded(text, cfg) == ReadDocument(text, cfg.lim)
    ensures PythonDecoded(text, cfg) != ReadDocument(text, cfg.lim) <==> HidesDepth(text, cfg)
  {
    var wide := Limits(cfg.stack, cfg.lim.digits);
    if JsonLoads(text, cfg).Some? {
      var lead, t, trail := ReadDocumentIsDerived(text, wide);
      DepthOfMeaning(t);
      DerivedDocumentIsRead(text, lead, t, trail, cfg.lim);
    } else if ReadDocument(text, cfg.lim).Some? {
      var lead, t, trail := ReadDocumentIsDerived(text, cfg.lim);
      DerivedDocumentIsRead(text, lead, t, trail, wide);
    }
    forall lead, t, trail
      | && Derives(text, lead, t, trail) && DigitsWithin(t, cfg.lim.digits)
        && ValueDepth(Meaning(t)) <= cfg.lim.depth < Depth(t) <= cfg.stack
      ensures PythonDecoded(text, cfg) != ReadDocument(text, cfg.lim)
    {
      DerivedDocumentIsRead(text, lead, t, trail, wide);
      DerivedDocumentIsRead(text, lead, t, trail, cfg.lim);
    }
  }

  function PythonResponse(payload: bytes, cfg: Decoding): Value {
    match PythonDecoded(Sanitize(payload), cfg)
    case None => INVALID_JSON
    case Some(message) => BuildResponse(message)
  }

  /** The reply Python makes to a payload, in the serialiser's spelling. */
  function PythonReply(payload: bytes, cfg: Decoding, fmt: Format): bytes { Dump(PythonResponse(payload, cfg), fmt) }

  /** Both sides send the same bytes in reply to a payload if and only if its document does
      not hide its depth. */
  lemma RepliesAgree(payload: bytes, cfg: Decoding, fmt: Format)
    requires cfg.stack >= cfg.lim.depth
    ensures PythonReply(payload, cfg, fmt) == Reply(payload, cfg.lim, fmt) <==> !HidesDepth(Sanitize(payload), cfg)
  {
    var text := Sanitize(payload);
    SanitizedIsWellFormed(payload);
    DecodersCompared(text, cfg);
    if HidesDepth(text, cfg) {
      var wide := Limits(cfg.stack, cfg.lim.digits);
      ParsedIsCanonical(text, wide);
      AnsweredIsNotInvalid(PythonDecoded(text, cfg).value, wide, fmt);
    }
  }
}
