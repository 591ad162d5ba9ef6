/** One client connection of the native DUT (cpp/src/server.cpp:140-277): bytes arrive in
    arbitrary chunks, replies go out through partial sends. */
module Connections {
  import opened Bytes
  import opened Framing
  import opened Reader
  import opened Serializer
  import opened Protocol

  datatype Next = Continue | Stop

  /** What is sent for one event, and for several in order. */
  function ReplyTo(e: Event, lim: Limits, fmt: Format): bytes { ReplyText(e, lim, fmt) + [LF] }

  function ReplyText(e: Event, lim: Limits, fmt: Format): bytes {
    match e
    case Answer(payload) => Reply(payload, lim, fmt)
    case TooLong => TOO_LONG_REPLY
  }

  function Texts(events: seq<Event>, lim: Limits, fmt: Format): seq<bytes> {
    Mapped(e => ReplyText(e, lim, fmt), events)
  }

  function Render(events: seq<Event>, lim: Limits, fmt: Format): bytes { Wire(Texts(events, lim, fmt)) }

  lemma TextsConcat(a: seq<Event>, b: seq<Event>, lim: Limits, fmt: Format)
    ensures Texts(a + b, lim, fmt) == Texts(a, lim, fmt) + Texts(b, lim, fmt)
  {
    MappedConcat(e => ReplyText(e, lim, fmt), a, b);
  }

  lemma RenderConcat(a: seq<Event>, b: seq<Event>, lim: Limits, fmt: Format)
    ensures Render(a + b, lim, fmt) == Render(a, lim, fmt) + Render(b, lim, fmt)
  {
    TextsConcat(a, b, lim, fmt);
    WireConcat(Texts(a, lim, fmt), Texts(b, lim, fmt));
  }

  lemma RenderOne(e: Event, lim: Limits, fmt: Format)
    ensures Render([e], lim, fmt) == ReplyTo(e, lim, fmt)
  {
    assert Texts([e], lim, fmt) == [ReplyText(e, lim, fmt)];
    assert Wire([ReplyText(e, lim, fmt)][1..]) == [];
  }

  function Concat(chunks: seq<bytes>): bytes {
    if chunks == [] then [] else chunks[0] + Concat(chunks[1..])
  }

  /** The event a complete line leads to. */
  function EventOf(line: bytes, max: nat): Event {
    if |StripCR(line)| > max then TooLong else Answer(StripCR(line))
  }

  class Connection {
    const lim: Limits
    const fmt: Format
    const max: nat
    var wire: bytes
    /** A send has failed; what the peer got is then cut short. */
    var failed: bool

    constructor (lim: Limits, fmt: Format, max: nat)
      ensures this.lim == lim && this.fmt == fmt && this.max == max && wire == [] && !failed
    {
      this.lim := lim;
      this.fmt := fmt;
      this.max := max;
      this.wire := [];
      this.failed := false;
    }

    /** The system call: it may take any part of what it is offered, or fail. */
    method Send(offered: bytes) returns (taken: int)
      modifies this`wire
      ensures taken <= |offered|
      ensures wire == old(wire) + if taken > 0 then offered[..taken] else []
    {
      taken := *;
      if taken > |offered| {
        taken := 0;
      }
      if taken > 0 {
        wire := wire + offered[..taken];
      } else {
        assert wire + [] == wire;
      }
    }

    method SendAll(payload: bytes) returns (ok: bool)
      modifies this`wire, this`failed
      ensures failed == (old(failed) || !ok)
      ensures if ok then wire == old(wire) + payload else old(wire) <= wire < old(wire) + payload
    {
      var sent := 0;
      while sent < |payload|
        invariant 0 <= sent <= |payload|
        invariant wire == old(wire) + payload[..sent]
        invariant failed == old(failed)
      {
        var chunk := Send(payload[sent..]);
        if chunk <= 0 {
          failed := true;
          assert old(wire) + payload == wire + payload[sent..];
          return false;
        }
        assert payload[..sent] + payload[sent..][..chunk] == payload[..sent + chunk];
        sent := sent + chunk;
      }
      assert payload[..sent] == payload;
      return true;
    }

    /** Answers one frame, and says whether the connection goes on. */
    method HandleLine(line0: bytes) returns (next: Next)
      requires !failed
      modifies this`wire, this`failed
      ensures var e := EventOf(line0, max);
              && (next == Stop <==> e.TooLong? || failed)
              && (!failed ==> wire == old(wire) + ReplyTo(e, lim, fmt))
              && (failed ==> old(wire) <= wire < old(wire) + ReplyTo(e, lim, fmt))
    {
      var line := line0;
      while line != [] && line[|line| - 1] == CR
        invariant StripCR(line) == StripCR(line0)
        decreases |line|
      {
        line := line[..|line| - 1];
      }
      if |line| > max {
        var _ := SendAll(TOO_LONG_REPLY + [LF]);
        return Stop;
      }
      var response := Reply(line, lim, fmt);
      var ok := SendAll(response + [LF]);
      if !ok {
        return Stop;
      }
      return Continue;
    }

    /** The replies to `answered` are out, and `all` is those and the events still to come
        from `unread`. */
    ghost predicate OnTrack(start: bytes, answered: seq<Event>, all: seq<Event>, unread: bytes, orderly: bool)
      reads this
    {
      && !failed
      && wire == start + Render(answered, lim, fmt)
      && all == answered + Events(unread, orderly, max)
    }

    /** The replies to `all` are out, or a failed send has cut them short. */
    ghost predicate Finished(start: bytes, all: seq<Event>)
      reads this
    {
      var replies := Render(all, lim, fmt);
      (!failed ==> wire == start + replies) && (failed ==> start <= wire < start + replies)
    }

    /** One frame, with the proof that it keeps the connection on track. */
    method HandleFrame(line: bytes, ghost start: bytes, ghost answered: seq<Event>, ghost all: seq<Event>)
      returns (next: Next)
      requires !failed && wire == start + Render(answered, lim, fmt) && answered + [EventOf(line, max)] <= all
      modifies this`wire, this`failed
      ensures next == Continue ==> !failed && wire == start + Render(answered + [EventOf(line, max)], lim, fmt)
      ensures next == Continue ==> EventOf(line, max).Answer?
      ensures next == Stop ==> failed || EventOf(line, max) == TooLong
      ensures failed || all == answered + [EventOf(line, max)] ==> Finished(start, all)
    {
      next := HandleLine(line);
      Answered(answered, EventOf(line, max), all, start, lim, fmt);
    }

    /** Takes the first complete line off the buffer and answers it. */
    method HandleFirst(buffer: bytes, ghost later: bytes, ghost start: bytes, ghost answered: seq<Event>,
                       ghost all: seq<Event>, ghost orderly: bool)
      returns (rest: bytes, next: Next, ghost now: seq<Event>)
      requires LineEnd(buffer) < |buffer| && OnTrack(start, answered, all, buffer + later, orderly)
      modifies this`wire, this`failed
      ensures |rest| < |buffer|
      ensures if next == Stop then Finished(start, all) else OnTrack(start, now, all, rest + later, orderly)
    {
      var newline := LineEnd(buffer);
      var line := buffer[..newline];
      rest := buffer[newline + 1..];
      now := answered + [EventOf(line, max)];
      FrameAhead(answered, buffer, later, all, orderly, max);
      next := HandleFrame(line, start, answered, all);
    }

    /** One chunk: extracts and answers the complete lines, then looks at what is left. */
    method HandleChunk(received: bytes, ghost later: bytes, ghost start: bytes, ghost before: seq<Event>,
                       ghost all: seq<Event>, ghost orderly: bool)
      returns (buffer: bytes, stop: bool, ghost answered: seq<Event>)
      requires OnTrack(start, before, all, received + later, orderly)
      modifies this`wire, this`failed
      ensures stop ==> Finished(start, all)
      ensures !stop ==> OnTrack(start, answered, all, buffer + later, orderly)
      ensures !stop ==> LF !in buffer && |StripCR(buffer)| <= max
    {
      buffer, answered, stop := received, before, false;
      while LineEnd(buffer) < |buffer|
        invariant OnTrack(start, answered, all, buffer + later, orderly)
        decreases |buffer|
      {
        var next;
        buffer, next, answered := HandleFirst(buffer, later, start, answered, all, orderly);
        if next == Stop {
          return buffer, true, answered;
        }
      }
      assert buffer[..|buffer|] == buffer;
      var pending := PendingLength(buffer);
      if pending > max {
        OverlongRemainder(buffer, later, orderly, max);
        RejectRemainder(start, answered, all);
        stop := true;
      }
    }

    method RejectRemainder(ghost start: bytes, ghost answered: seq<Event>, ghost all: seq<Event>)
      requires !failed && wire == start + Render(answered, lim, fmt) && all == answered + [TooLong]
      modifies this`wire, this`failed
      ensures Finished(start, all)
    {
      Answered(answered, TooLong, all, start, lim, fmt);
      var _ := SendAll(TOO_LONG_REPLY + [LF]);
    }

    /** The receive loop over every way the stream may be cut into chunks, ended by an
        orderly half-close or by an error. What is sent depends only on the concatenation of
        the chunks; a failed send cuts it short. */
    method HandleConnection(chunks: seq<bytes>, orderly: bool)
      requires !failed
      modifies this`wire, this`failed
      ensures Finished(old(wire), Events(Concat(chunks), orderly, max))
    {
      var buffer: bytes := [];
      ghost var all := Events(Concat(chunks), orderly, max);
      ghost var answered: seq<Event> := [];
      Untouched(Concat(chunks), all, wire, lim, fmt);
      for i := 0 to |chunks|
        invariant LF !in buffer && |StripCR(buffer)| <= max
        invariant OnTrack(old(wire), answered, all, buffer + Concat(chunks[i..]), orderly)
      {
        NextChunk(buffer, chunks, i);
        var stop;
        buffer, stop, answered :=
          HandleChunk(buffer + chunks[i], Concat(chunks[i + 1..]), old(wire), answered, all, orderly);
        if stop {
          return;
        }
      }
      assert buffer + Concat(chunks[|chunks|..]) == buffer;
      HandleEnd(buffer, orderly, old(wire), answered, all);
    }

    /** The end of the stream: an orderly close answers a non-empty remainder. */
    method HandleEnd(buffer: bytes, orderly: bool, ghost start: bytes, ghost answered: seq<Event>,
                     ghost all: seq<Event>)
      requires LF !in buffer && |StripCR(buffer)| <= max && OnTrack(start, answered, all, buffer, orderly)
      modifies this`wire, this`failed
      ensures Finished(start, all)
    {
      EventsOfTail(buffer, orderly, max);
      if orderly && buffer != [] {
        var _ := HandleFrame(buffer, start, answered, all);
      } else {
        assert answered + [] == answered;
      }
    }

    /** The length of the unterminated remainder without its trailing carriage returns. */
    method PendingLength(buffer: bytes) returns (pending: nat)
      ensures pending == |StripCR(buffer)|
    {
      pending := |buffer|;
      assert buffer[..pending] == buffer;
      while pending > 0 && buffer[pending - 1] == CR
        invariant pending <= |buffer|
        invariant StripCR(buffer[..pending]) == StripCR(buffer)
      {
        assert buffer[..pending][..pending - 1] == buffer[..pending - 1];
        pending := pending - 1;
      }
    }
  }

  lemma Untouched(later: bytes, all: seq<Event>, wire: bytes, lim: Limits, fmt: Format)
    ensures [] + later == later && [] + all == all && wire + Render([], lim, fmt) == wire
  {
    assert Texts([], lim, fmt) == [];
  }

  lemma NextChunk(buffer: bytes, chunks: seq<bytes>, i: nat)
    requires i < |chunks|
    ensures buffer + Concat(chunks[i..]) == (buffer + chunks[i]) + Concat(chunks[i + 1..])
  {
    assert chunks[i..][1..] == chunks[i + 1..];
    Assoc(buffer, chunks[i], Concat(chunks[i + 1..]));
  }

  /** The first complete line of the buffer is the first frame of what is unread. */
  lemma NextFrame(buffer: bytes, later: bytes, orderly: bool, max: nat)
    requires LineEnd(buffer) < |buffer|
    ensures var k := LineEnd(buffer);
            var e := EventOf(buffer[..k], max);
            Events(buffer + later, orderly, max)
            == if e.TooLong? then [e] else [e] + Events(buffer[k + 1..] + later, orderly, max)
  {
    var k := LineEnd(buffer);
    var line, rest := buffer[..k], buffer[k + 1..];
    SplitAt(buffer, k);
    EventsOfLine(line, rest + later, orderly, max);
    Assoc([LF], rest, later);
    Assoc(line, [LF] + rest, later);
  }

  /** All the events, once the first complete line is answered. */
  lemma FrameAhead(answered: seq<Event>, buffer: bytes, later: bytes, all: seq<Event>, orderly: bool, max: nat)
    requires LineEnd(buffer) < |buffer| && all == answered + Events(buffer + later, orderly, max)
    ensures var k := LineEnd(buffer);
            var now := answered + [EventOf(buffer[..k], max)];
            && now <= all
            && (EventOf(buffer[..k], max).TooLong? ==> all == now)
            && (EventOf(buffer[..k], max).Answer? ==> all == now + Events(buffer[k + 1..] + later, orderly, max))
  {
    var k := LineEnd(buffer);
    NextFrame(buffer, later, orderly, max);
    OneAhead(answered, EventOf(buffer[..k], max), Events(buffer[k + 1..] + later, orderly, max));
  }

  lemma OneAhead(answered: seq<Event>, e: Event, rest: seq<Event>)
    ensures answered + ([e] + rest) == (answered + [e]) + rest
    ensures answered + [e] <= answered + ([e] + rest)
  {
    Assoc(answered, [e], rest);
  }

  /** Sending the reply to the next event extends what was sent, and stays a part of what is
      to be sent in all. */
  lemma Answered(answered: seq<Event>, e: Event, all: seq<Event>, start: bytes, lim: Limits, fmt: Format)
    requires answered + [e] <= all
    ensures var before := start + Render(answered, lim, fmt);
            && before + ReplyTo(e, lim, fmt) == start + Render(answered + [e], lim, fmt)
            && before + ReplyTo(e, lim, fmt) <= start + Render(all, lim, fmt)
            && (all == answered + [e] ==> before + ReplyTo(e, lim, fmt) == start + Render(all, lim, fmt))
  {
    RenderConcat(answered, [e], lim, fmt);
    RenderOne(e, lim, fmt);
    Assoc(start, Render(answered, lim, fmt), ReplyTo(e, lim, fmt));
    RenderGrows(answered + [e], all, start, lim, fmt);
  }

  lemma RenderGrows(done: seq<Event>, all: seq<Event>, start: bytes, lim: Limits, fmt: Format)
    requires done <= all
    ensures start + Render(done, lim, fmt) <= start + Render(all, lim, fmt)
  {
    var more := all[|done|..];
    assert all == done + more;
    RenderConcat(done, more, lim, fmt);
    Assoc(start, Render(done, lim, fmt), Render(more, lim, fmt));
  }
}
