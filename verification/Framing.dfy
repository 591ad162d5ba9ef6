/** Line framing: what a byte stream means as a sequence of requests, what the Python DUT's
    `readline` loop makes of it, and exactly when the two agree. */
module Framing {
  import opened Bytes

  /** What a frame leads to: an answer to its payload, or the over-long reply that ends the
      connection. */
  datatype Event = Answer(payload: bytes) | TooLong

  // ----- Frames

  /** The place of the first line feed, or the length when there is none. */
  function LineEnd(s: bytes): (k: nat)
    ensures k <= |s| && LF !in s[..k]
    ensures k < |s| ==> s[k] == LF
  {
    if s == [] || s[0] == LF then 0
    else
      var k := LineEnd(s[1..]);
      assert s[..1 + k] == [s[0]] + s[1..][..k];
      1 + k
  }

  /** `s` without its trailing carriage returns. */
  function StripCR(s: bytes): (p: bytes)
    ensures p <= s
    ensures p == [] || p[|p| - 1] != CR
  {
    if s != [] && s[|s| - 1] == CR then StripCR(s[..|s| - 1]) else s
  }

  predicate AllCR(s: bytes) { forall i | 0 <= i < |s| :: s[i] == CR }

  lemma {:induction false} StripIsSuffixFree(s: bytes)
    ensures AllCR(s[|StripCR(s)|..])
  {
    if s != [] && s[|s| - 1] == CR {
      var front := s[..|s| - 1];
      StripIsSuffixFree(front);
      assert s[|StripCR(s)|..] == front[|StripCR(s)|..] + [CR];
    }
  }

  /** The payload is pinned down by what follows it. */
  lemma {:induction false} StripUnique(p: bytes, r: bytes)
    requires (p == [] || p[|p| - 1] != CR) && AllCR(r)
    ensures StripCR(p + r) == p
    decreases |r|
  {
    if r == [] {
      assert p + r == p;
    } else {
      var s := p + r;
      assert s[..|s| - 1] == p + r[..|r| - 1] && s[|s| - 1] == r[|r| - 1];
      StripUnique(p, r[..|r| - 1]);
    }
  }

  /** More bytes never shorten a payload. */
  lemma StripGrows(a: bytes, b: bytes)
    ensures |StripCR(a)| <= |StripCR(a + b)|
    ensures |StripCR(a + b)| <= |a| ==> StripCR(a + b) == StripCR(a)
  {
    var s := a + b;
    var p := StripCR(s);
    StripIsSuffixFree(s);
    if |p| <= |a| {
      var r := a[|p|..];
      assert a == p + r by { assert p == s[..|p|] == a[..|p|]; }
      assert forall i | 0 <= i < |r| :: r[i] == s[|p|..][i];
      StripUnique(p, r);
    }
  }

  /** The specification: split at LF, strip trailing CRs, answer each payload in order, stop
      at the first over the cap. A non-empty unterminated tail is answered only when the
      stream ends in order; an over-long one is rejected either way. */
  function Events(s: bytes, orderly: bool, max: nat): seq<Event>
    decreases |s|
  {
    var k := LineEnd(s);
    var p := StripCR(s[..k]);
    if |p| > max then [TooLong]
    else if k < |s| then [Answer(p)] + Events(s[k + 1..], orderly, max)
    else if orderly && s != [] then [Answer(p)]
    else []
  }

  lemma {:induction false} LineEndOfLine(line: bytes, rest: bytes)
    requires LF !in line
    ensures LineEnd(line + ([LF] + rest)) == |line|
    ensures LineEnd(line) == |line|
  {
    var s := line + ([LF] + rest);
    if line == [] {
      assert s == [LF] + rest;
    } else {
      LineEndOfLine(line[1..], rest);
      assert s[1..] == line[1..] + ([LF] + rest);
    }
  }

  lemma EventsOfLine(line: bytes, rest: bytes, orderly: bool, max: nat)
    requires LF !in line
    ensures Events(line + ([LF] + rest), orderly, max)
         == if |StripCR(line)| > max then [TooLong] else [Answer(StripCR(line))] + Events(rest, orderly, max)
  {
    var s := line + ([LF] + rest);
    LineEndOfLine(line, rest);
    assert s[..|line|] == line && s[|line| + 1..] == rest;
  }

  lemma EventsOfTail(tail: bytes, orderly: bool, max: nat)
    requires LF !in tail
    ensures Events(tail, orderly, max)
         == if |StripCR(tail)| > max then [TooLong] else if orderly && tail != [] then [Answer(StripCR(tail))] else []
  {
    LineEndOfLine(tail, []);
    assert tail[..|tail|] == tail;
  }

  /** Whatever arrives later, an unterminated frame already over the cap is rejected: the
      check on the unterminated remainder anticipates nothing the frame would not meet. */
  lemma OverlongRemainder(pending: bytes, later: bytes, orderly: bool, max: nat)
    requires LF !in pending && |StripCR(pending)| > max
    ensures Events(pending + later, orderly, max) == [TooLong]
  {
    var s := pending + later;
    LineEndPast(pending, later);
    var k := LineEnd(s);
    var more := s[..k][|pending|..];
    assert s[..k] == pending + more;
    StripGrows(pending, more);
  }

  lemma {:induction false} LineEndPast(pending: bytes, later: bytes)
    requires LF !in pending
    ensures LineEnd(pending + later) >= |pending|
  {
    if pending != [] {
      LineEndPast(pending[1..], later);
      assert (pending + later)[1..] == pending[1..] + later;
    }
  }

  // ----- The Python DUT

  /** What `readline(limit)` returns: up to and including the first line feed, but no more
      than `limit` bytes. */
  function ReadLine(s: bytes, limit: nat): (line: bytes)
    ensures line <= s && (s != [] && limit > 0 ==> line != [])
  {
    var k := LineEnd(s);
    if k < |s| && k < limit then s[..k + 1] else if |s| <= limit then s else s[..limit]
  }

  /** `rstrip(b"\r\n")`. */
  function RStrip(s: bytes): (p: bytes)
    ensures p <= s
    ensures p == [] || (p[|p| - 1] != CR && p[|p| - 1] != LF)
  {
    if s != [] && (s[|s| - 1] == CR || s[|s| - 1] == LF) then RStrip(s[..|s| - 1]) else s
  }

  /** The events of the `readline(max + 2)` loop. */
  function PythonEvents(s: bytes, max: nat): seq<Event>
    decreases |s|
  {
    if s == [] then []
    else
      var line := ReadLine(s, max + 2);
      var p := RStrip(line);
      if |p| > max then [TooLong] else [Answer(p)] + PythonEvents(s[|line|..], max)
  }

  /** A frame is cut by `readline` inside its trailing carriage returns, before any frame is
      rejected. The test looks at two bytes of each frame. */
  predicate CutInCarriageReturns(s: bytes, max: nat)
    decreases |s|
  {
    var k := LineEnd(s);
    if k > max + 1 && s[max] == CR && s[max + 1] == CR then k < |s| || k > max + 2
    else |StripCR(s[..k])| <= max && k < |s| && CutInCarriageReturns(s[k + 1..], max)
  }

  lemma {:induction false} RStripOfLine(line: bytes)
    requires LF !in line
    ensures RStrip(line) == StripCR(line) && RStrip(line + [LF]) == StripCR(line)
  {
    assert (line + [LF])[..|line|] == line;
    if line != [] { RStripOfLine(line[..|line| - 1]); }
  }

  /** A first line that fits is returned whole. */
  lemma PythonOfLine(line: bytes, rest: bytes, max: nat)
    requires LF !in line && |line| <= max + 1
    ensures PythonEvents(line + ([LF] + rest), max)
         == if |StripCR(line)| > max then [TooLong] else [Answer(StripCR(line))] + PythonEvents(rest, max)
  {
    var s := line + ([LF] + rest);
    LineEndOfLine(line, rest);
    RStripOfLine(line);
    assert ReadLine(s, max + 2) == line + [LF];
    assert s[|line| + 1..] == rest;
  }

  /** A stretch of `max + 2` bytes without a line feed is returned as it stands. */
  lemma PythonOfStretch(c: bytes, later: bytes, max: nat)
    requires LF !in c && |c| == max + 2
    ensures PythonEvents(c + later, max)
         == if |StripCR(c)| > max then [TooLong] else [Answer(StripCR(c))] + PythonEvents(later, max)
  {
    var s := c + later;
    LineEndPast(c, later);
    RStripOfLine(c);
    assert ReadLine(s, max + 2) == c;
    assert s[|c|..] == later;
  }

  /** A shorter unterminated tail is returned at the end of the stream. */
  lemma PythonOfTail(tail: bytes, max: nat)
    requires LF !in tail && |tail| <= max + 1
    ensures PythonEvents(tail, max)
         == if tail == [] then [] else if |StripCR(tail)| > max then [TooLong] else [Answer(StripCR(tail))]
  {
    LineEndOfLine(tail, []);
    RStripOfLine(tail);
    assert ReadLine(tail, max + 2) == tail;
    assert tail[|tail|..] == [];
  }

  /** `readline` cuts this frame inside its trailing carriage returns. */
  predicate CutsFrame(f: bytes, max: nat) { |f| > max + 1 && f[max] == CR && f[max + 1] == CR }

  lemma CutOfLine(line: bytes, rest: bytes, max: nat)
    requires LF !in line
    ensures CutInCarriageReturns(line + ([LF] + rest), max)
       <==> CutsFrame(line, max) || (|StripCR(line)| <= max && CutInCarriageReturns(rest, max))
  {
    var s := line + ([LF] + rest);
    LineEndOfLine(line, rest);
    assert s[..|line|] == line && s[|line| + 1..] == rest;
  }

  lemma CutOfTail(tail: bytes, max: nat)
    requires LF !in tail
    ensures CutInCarriageReturns(tail, max) <==> CutsFrame(tail, max) && |tail| > max + 2
  {
    LineEndOfLine(tail, []);
  }

  /** A stretch keeps within the cap exactly when it ends in two carriage returns. */
  lemma StretchWithinCap(c: bytes, max: nat)
    requires |c| == max + 2
    ensures |StripCR(c)| <= max <==> c[max] == CR && c[max + 1] == CR
  {
    var p := StripCR(c);
    StripIsSuffixFree(c);
    if |p| <= max {
      assert c[|p|..][max - |p|] == c[max] && c[|p|..][max + 1 - |p|] == c[max + 1];
    }
    if c[max] == CR && c[max + 1] == CR {
      var front := c[..max + 1];
      assert front[..max] == c[..max];
      assert StripCR(c) == StripCR(front) == StripCR(c[..max]);
    }
  }

  /** The parts of a frame longer than `readline` returns at once. */
  lemma StretchOfFrame(f: bytes, max: nat)
    requires |f| >= max + 2 && LF !in f
    ensures var c := f[..max + 2];
            var r := f[max + 2..];
            && f == c + r && LF !in c && LF !in r
            && (|StripCR(c)| <= max <==> CutsFrame(f, max))
            && (|StripCR(c)| > max ==> |StripCR(f)| > max)
            && (|StripCR(f)| <= max ==> StripCR(f) == StripCR(c) && AllCR(r))
  {
    var c := f[..max + 2];
    var r := f[max + 2..];
    assert f == c + r;
    StretchWithinCap(c, max);
    StripGrows(c, r);
    StripIsSuffixFree(f);
    var n := |StripCR(f)|;
    if n <= max { assert r == f[n..][max + 2 - n..]; }
  }

  /** Carriage returns left over from a cut frame cost the Python side at least one more
      event before it reaches the next frame. */
  lemma {:induction false} LeftoverCosts(r: bytes, rest: bytes, max: nat)
    requires AllCR(r)
    ensures |PythonEvents(r + ([LF] + rest), max)| >= 1 + |PythonEvents(rest, max)|
    decreases |r|
  {
    if |r| <= max + 1 {
      OnlyCR(r);
      PythonOfLine(r, rest, max);
    } else {
      var c, more := r[..max + 2], r[max + 2..];
      OnlyCR(c);
      PythonOfStretch(c, more + ([LF] + rest), max);
      Assoc(c, more, [LF] + rest);
      assert c + more == r;
      LeftoverCosts(more, rest, max);
    }
  }

  lemma OnlyCR(r: bytes)
    requires AllCR(r)
    ensures StripCR(r) == [] && LF !in r
  {
    StripUnique([], r);
    assert [] + r == r;
  }

  /** What the Python side makes of a terminated frame that `readline` cuts. */
  lemma PythonOfLongLine(line: bytes, rest: bytes, max: nat)
    requires LF !in line && |line| >= max + 2
    ensures var python := PythonEvents(line + ([LF] + rest), max);
            && (!CutsFrame(line, max) ==> python == [TooLong] && |StripCR(line)| > max)
            && (CutsFrame(line, max) ==> |python| >= 2)
            && (CutsFrame(line, max) && |StripCR(line)| <= max ==> |python| >= 2 + |PythonEvents(rest, max)|)
  {
    StretchOfFrame(line, max);
    var c, r := line[..max + 2], line[max + 2..];
    Assoc(c, r, [LF] + rest);
    PythonOfStretch(c, r + ([LF] + rest), max);
    SomeEvent(r + ([LF] + rest), max);
    if |StripCR(line)| <= max { LeftoverCosts(r, rest, max); }
  }

  lemma SomeEvent(s: bytes, max: nat)
    requires s != []
    ensures PythonEvents(s, max) != []
  {
  }

  /** One terminated frame: what both sides make of it, given what they make of the rest. */
  lemma LineCompared(line: bytes, rest: bytes, max: nat, python: seq<Event>, spec: seq<Event>)
    requires LF !in line
    requires |PythonEvents(rest, max)| >= |Events(rest, true, max)|
    requires python == PythonEvents(line + ([LF] + rest), max) && spec == Events(line + ([LF] + rest), true, max)
    ensures CutsFrame(line, max) ==> |python| > |spec|
    ensures !CutsFrame(line, max) && |StripCR(line)| > max ==> python == spec
    ensures !CutsFrame(line, max) && |StripCR(line)| <= max ==>
              && |python| - |spec| == |PythonEvents(rest, max)| - |Events(rest, true, max)|
              && (PythonEvents(rest, max) == Events(rest, true, max) ==> python == spec)
  {
    EventsOfLine(line, rest, true, max);
    if |line| >= max + 2 {
      PythonOfLongLine(line, rest, max);
    } else {
      PythonOfLine(line, rest, max);
    }
  }

  /** The unterminated tail at an orderly close. */
  lemma TailCompared(tail: bytes, max: nat)
    requires LF !in tail
    ensures if CutsFrame(tail, max) && |tail| > max + 2 then |PythonEvents(tail, max)| > |Events(tail, true, max)|
            else PythonEvents(tail, max) == Events(tail, true, max)
  {
    EventsOfTail(tail, true, max);
    if |tail| <= max + 1 {
      PythonOfTail(tail, max);
      assert tail == [] ==> StripCR(tail) == [];
    } else {
      StretchOfFrame(tail, max);
      var c, r := tail[..max + 2], tail[max + 2..];
      PythonOfStretch(c, r, max);
      if r != [] { SomeEvent(r, max); } else { assert c == tail; }
    }
  }

  /** The two framings agree on a stream exactly when no frame is cut inside its trailing
      carriage returns; where they differ, the Python side has more events. */
  lemma {:induction false} FramingsAgreeExactly(s: bytes, max: nat)
    ensures if CutInCarriageReturns(s, max) then |PythonEvents(s, max)| > |Events(s, true, max)|
            else PythonEvents(s, max) == Events(s, true, max)
    decreases |s|
  {
    var k := LineEnd(s);
    if k < |s| {
      var line, rest := s[..k], s[k + 1..];
      FramingsAgreeExactly(rest, max);
      SplitAt(s, k);
      LineCompared(line, rest, max, PythonEvents(s, max), Events(s, true, max));
      CutOfLine(line, rest, max);
    } else {
      assert s[..k] == s;
      TailCompared(s, max);
      CutOfTail(s, max);
    }
  }

  /** Streams in which a carriage return stands only directly before a line feed or last. */
  predicate CleanCR(s: bytes) {
    forall i | 0 <= i < |s| - 1 :: s[i] == CR ==> s[i + 1] == LF
  }

  lemma {:induction false} CleanIsNotCut(s: bytes, max: nat)
    requires CleanCR(s)
    ensures !CutInCarriageReturns(s, max)
    decreases |s|
  {
    var k := LineEnd(s);
    if k < |s| { CleanIsNotCut(s[k + 1..], max); }
  }

  /** On such streams the two implementations are one protocol. */
  lemma CleanStreamsAgree(s: bytes, max: nat)
    requires CleanCR(s)
    ensures PythonEvents(s, max) == Events(s, true, max)
  {
    CleanIsNotCut(s, max);
    FramingsAgreeExactly(s, max);
  }

  /** Two carriage returns behind a payload at the cap separate them: Python cuts the frame
      between those and its line feed, and answers the line feed as a request of its own. */
  lemma CarriageReturnsSeparate(p: bytes)
    requires LF !in p && (p == [] || p[|p| - 1] != CR)
    ensures var s := (p + [CR, CR]) + [LF];
            Events(s, true, |p|) == [Answer(p)] && PythonEvents(s, |p|) == [Answer(p), Answer([])]
  {
    StripUnique(p, [CR, CR]);
    NativeOfCut(p + [CR, CR], |p|);
    PythonOfCut(p + [CR, CR], |p|);
  }

  lemma NativeOfCut(line: bytes, max: nat)
    requires LF !in line && |StripCR(line)| <= max
    ensures Events(line + [LF], true, max) == [Answer(StripCR(line))]
  {
    assert [LF] + [] == [LF];
    EventsOfLine(line, [], true, max);
    EventsOfTail([], true, max);
  }

  lemma PythonOfCut(line: bytes, max: nat)
    requires LF !in line && |line| == max + 2 && |StripCR(line)| <= max
    ensures PythonEvents(line + [LF], max) == [Answer(StripCR(line)), Answer([])]
  {
    PythonOfStretch(line, [LF], max);
    PythonOfLine([], [], max);
    assert [] + ([LF] + []) == [LF];
    assert PythonEvents([], max) == [];
  }

  // ----- Reply streams

  /** Replies as they go out, each ended by a line feed. */
  function Wire(replies: seq<bytes>): bytes {
    if replies == [] then [] else (replies[0] + [LF]) + Wire(replies[1..])
  }

  /** The complete lines of a stream. */
  function Lines(s: bytes): seq<bytes>
    decreases |s|
  {
    var k := LineEnd(s);
    if k == |s| then [] else [s[..k]] + Lines(s[k + 1..])
  }

  /** Splitting the reply stream recovers the replies one to one. */
  lemma {:induction false} LinesOfWire(replies: seq<bytes>)
    requires forall i | 0 <= i < |replies| :: LF !in replies[i]
    ensures Lines(Wire(replies)) == replies
  {
    if replies != [] {
      var rest := Wire(replies[1..]);
      var s := replies[0] + ([LF] + rest);
      Assoc(replies[0], [LF], rest);
      LineEndOfLine(replies[0], rest);
      assert s[..|replies[0]|] == replies[0] && s[|replies[0]| + 1..] == rest;
      LinesOfWire(replies[1..]);
    }
  }

  lemma {:induction false} WireConcat(a: seq<bytes>, b: seq<bytes>)
    ensures Wire(a + b) == Wire(a) + Wire(b)
  {
    if a == [] {
      assert a + b == b;
    } else {
      WireConcat(a[1..], b);
      assert (a + b)[1..] == a[1..] + b;
      Assoc(a[0] + [LF], Wire(a[1..]), Wire(b));
    }
  }

  // ----- The specification, line by line

  function AnswersTo(lines: seq<bytes>): seq<Event> { Mapped((line: bytes) => Answer(StripCR(line)), lines) }

  predicate Line(line: bytes, max: nat) { LF !in line && |StripCR(line)| <= max }

  function TailEvents(tail: bytes, orderly: bool, max: nat): seq<Event> {
    if |StripCR(tail)| > max then [TooLong] else if orderly && tail != [] then [Answer(StripCR(tail))] else []
  }

  /** Lines within the cap are answered in order, one event each; then an unterminated tail is
      rejected if it is over the cap, and otherwise answered when it is not empty and the
      stream ends in order. */
  lemma {:induction false} LinesAreAnswered(lines: seq<bytes>, tail: bytes, orderly: bool, max: nat)
    requires (forall i | 0 <= i < |lines| :: Line(lines[i], max)) && LF !in tail
    ensures Events(Wire(lines) + tail, orderly, max)
         == AnswersTo(lines) + TailEvents(tail, orderly, max)
  {
    if lines == [] {
      assert Wire(lines) + tail == tail;
      EventsOfTail(tail, orderly, max);
    } else {
      LinesAreAnswered(lines[1..], tail, orderly, max);
      FirstLine(lines[0], Wire(lines[1..]), tail);
      EventsOfLine(lines[0], Wire(lines[1..]) + tail, orderly, max);
      Assoc([Answer(StripCR(lines[0]))], AnswersTo(lines[1..]), TailEvents(tail, orderly, max));
    }
  }

  /** The first line over the cap is rejected, and nothing after it is looked at. */
  lemma {:induction false} OverlongLineEnds(lines: seq<bytes>, long: bytes, rest: bytes, orderly: bool, max: nat)
    requires forall i | 0 <= i < |lines| :: Line(lines[i], max)
    requires LF !in long && |StripCR(long)| > max
    ensures Events(Wire(lines) + (long + ([LF] + rest)), orderly, max) == AnswersTo(lines) + [TooLong]
  {
    var tail := long + ([LF] + rest);
    if lines == [] {
      assert Wire(lines) + tail == tail;
      EventsOfLine(long, rest, orderly, max);
    } else {
      OverlongLineEnds(lines[1..], long, rest, orderly, max);
      FirstLine(lines[0], Wire(lines[1..]), tail);
      EventsOfLine(lines[0], Wire(lines[1..]) + tail, orderly, max);
    }
  }

  lemma FirstLine(line: bytes, wire: bytes, tail: bytes)
    ensures ((line + [LF]) + wire) + tail == line + ([LF] + (wire + tail))
  {
    Assoc(line + [LF], wire, tail);
    Assoc(line, [LF], wire + tail);
  }

  function Mapped<A, B>(f: A -> B, s: seq<A>): (r: seq<B>)
    ensures |r| == |s| && forall i | 0 <= i < |s| :: r[i] == f(s[i])
  {
    if s == [] then [] else [f(s[0])] + Mapped(f, s[1..])
  }

  lemma MappedConcat<A, B>(f: A -> B, a: seq<A>, b: seq<A>)
    ensures Mapped(f, a + b) == Mapped(f, a) + Mapped(f, b)
  {
  }
}
