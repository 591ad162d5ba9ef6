/** The repair of ill-formed UTF-8 that runs before parsing (cpp/src/json.cpp:693-769),
    against the "maximal subpart" rule of section 3.9 of the Unicode Standard. */
module Sanitizer {
  import opened Bytes
  import opened Utf8

  /** U+FFFD as three bytes. */
  const REPLACEMENT: bytes := [0xEF, 0xBF, 0xBD]

  // ----- The rule, stated without reference to the scanner

  /** `p` begins some character. */
  ghost predicate Opens(p: bytes) {
    exists m :: Unit(m) && p <= m
  }

  /** No character starts where `s` starts. */
  ghost predicate Unconvertible(s: bytes) {
    forall m | Unit(m) :: !(m <= s)
  }

  /** `m` is the longest piece at the unconvertible start of `s` that begins some character,
      or a single byte when there is none. */
  ghost predicate MaximalSubpart(m: bytes, s: bytes) {
    && Unconvertible(s)
    && m != [] && m <= s
    && (|m| == 1 || Opens(m))
    && forall k | |m| < k <= |s| :: !Opens(s[..k])
  }

  datatype Segment = Character(m: bytes) | Subpart(m: bytes)

  /** `segs` cuts the whole of `s` into characters and maximal subparts. */
  ghost predicate Segmented(s: bytes, segs: seq<Segment>)
    decreases |segs|
  {
    if segs == [] then s == []
    else
      var m := segs[0].m;
      && m != [] && m <= s
      && (if segs[0].Character? then Unit(m) else MaximalSubpart(m, s))
      && Segmented(s[|m|..], segs[1..])
  }

  /** Characters are kept and each maximal subpart becomes exactly one U+FFFD. */
  function Repaired(segs: seq<Segment>): bytes {
    if segs == [] then []
    else (if segs[0].Character? then segs[0].m else REPLACEMENT) + Repaired(segs[1..])
  }

  // ----- What the scanner computes

  /** The sequence length a lead byte announces; 0 for a byte that can lead nothing. */
  function Expected(lead: byte): (n: nat) {
    if 0xC2 <= lead <= 0xDF then 2
    else if 0xE0 <= lead <= 0xEF then 3
    else if 0xF0 <= lead <= 0xF4 then 4
    else 0
  }

  function SecondLow(lead: byte): byte {
    if lead == 0xE0 then 0xA0 else if lead == 0xF0 then 0x90 else 0x80
  }

  function SecondHigh(lead: byte): byte {
    if lead == 0xED then 0x9F else if lead == 0xF4 then 0x8F else 0xBF
  }

  /** How many continuation bytes stand at `s[n..limit]`, counted from `n`. */
  function Continuations(s: bytes, n: nat, limit: nat): (r: nat)
    requires n <= limit
    ensures n <= r <= limit && (n <= |s| ==> r <= |s|)
    ensures forall i | n <= i < r :: i < |s| && Continuation(s[i])
    ensures r < limit ==> r >= |s| || !Continuation(s[r])
    decreases limit - n
  {
    if n < limit && n < |s| && Continuation(s[n]) then Continuations(s, n + 1, limit) else n
  }

  /** How much of a well-formed sequence is present at the start of `s`. */
  function ValidPrefix(s: bytes): (n: nat)
    requires s != []
    ensures 1 <= n <= |s|
  {
    var e := Expected(s[0]);
    if e >= 2 && |s| > 1 && SecondLow(s[0]) <= s[1] <= SecondHigh(s[0]) then Continuations(s, 2, e) else 1
  }

  /** The repaired text. */
  function Sanitize(s: bytes): bytes
    decreases |s|
  {
    if s == [] then []
    else if s[0] < 0x80 then [s[0]] + Sanitize(s[1..])
    else
      var n := ValidPrefix(s);
      (if n == Expected(s[0]) then s[..n] else REPLACEMENT) + Sanitize(s[n..])
  }

  method SanitizeUtf8(text: bytes) returns (out: bytes)
    ensures out == Sanitize(text)
  {
    out := [];
    var index := 0;
    var size := |text|;
    while index < size
      invariant index <= size
      invariant out + Sanitize(text[index..]) == Sanitize(text)
    {
      var lead := text[index];
      if lead < 0x80 {
        AsciiStep(text, index, out);
        out := out + [text[index]];
        index := index + 1;
        continue;
      }
      SequenceStep(text, index, out);
      var expected, validPrefix := ScanSequence(text, index);
      if expected != 0 && validPrefix == expected {
        out := out + text[index..index + expected];
        index := index + expected;
        continue;
      }
      out := out + REPLACEMENT;
      index := index + validPrefix;
    }
  }

  /** The length the lead byte announces, 0 if it is none, and how much of it is there. */
  method ScanSequence(text: bytes, index: nat) returns (expected: nat, validPrefix: nat)
    requires index < |text|
    ensures expected == Expected(text[index]) && validPrefix == ValidPrefix(text[index..])
  {
    var lead, size := text[index], |text|;
    expected := 0;
    var secondLow, secondHigh := 0x80, 0xBF;
    if 0xC2 <= lead <= 0xDF {
      expected := 2;
    } else if 0xE0 <= lead <= 0xEF {
      expected := 3;
      if lead == 0xE0 {
        secondLow := 0xA0;
      } else if lead == 0xED {
        secondHigh := 0x9F;
      }
    } else if 0xF0 <= lead <= 0xF4 {
      expected := 4;
      if lead == 0xF0 {
        secondLow := 0x90;
      } else if lead == 0xF4 {
        secondHigh := 0x8F;
      }
    }
    validPrefix := 1;
    if expected >= 2 && index + 1 < size && secondLow <= text[index + 1] <= secondHigh {
      validPrefix := 2;
      while validPrefix < expected && index + validPrefix < size && Continuation(text[index + validPrefix])
        invariant 2 <= validPrefix <= expected && index + validPrefix <= size
        invariant Continuations(text[index..], validPrefix, expected) == Continuations(text[index..], 2, expected)
      {
        validPrefix := validPrefix + 1;
      }
    }
  }

  /** One turn of the loop moves the output and the index together. */
  lemma AsciiStep(text: bytes, index: nat, out: bytes)
    requires index < |text| && text[index] < 0x80
    ensures (out + [text[index]]) + Sanitize(text[index + 1..]) == out + Sanitize(text[index..])
  {
    var s := text[index..];
    assert s[1..] == text[index + 1..];
    Assoc(out, [s[0]], Sanitize(s[1..]));
  }

  lemma SequenceStep(text: bytes, index: nat, out: bytes)
    requires index < |text| && text[index] >= 0x80
    ensures var n := ValidPrefix(text[index..]);
            (out + if n == Expected(text[index]) then text[index..index + n] else REPLACEMENT)
                + Sanitize(text[index + n..])
            == out + Sanitize(text[index..])
  {
    var s := text[index..];
    var n := ValidPrefix(s);
    assert s[n..] == text[index + n..] && s[..n] == text[index..index + n];
    Assoc(out, if n == Expected(s[0]) then s[..n] else REPLACEMENT, Sanitize(s[n..]));
  }

  // ----- The scanner follows the rule

  /** A full prefix is a character. */
  lemma CompleteIsUnit(s: bytes)
    requires s != [] && s[0] >= 0x80
    ensures ValidPrefix(s) == Expected(s[0]) ==> Unit(s[..ValidPrefix(s)])
    ensures ValidPrefix(s) != Expected(s[0]) ==> Unconvertible(s)
  {
    forall m | Unit(m)
      ensures m <= s ==> ValidPrefix(s) == Expected(s[0])
    {
      OpeningIsValid(m, m);
      if m <= s { ValidPrefixOfPrefix(s, |m|); }
    }
  }

  /** Every beginning of a character is a valid prefix to the scanner. */
  lemma OpeningIsValid(p: bytes, m: bytes)
    requires p != []
    ensures p[0] >= 0x80 && Unit(m) && p <= m ==> ValidPrefix(p) == |p| && |m| == Expected(p[0])
  {
    if p[0] >= 0x80 && Unit(m) && p <= m {
      assert p == m[..|p|];
    }
  }

  lemma ValidPrefixOfPrefix(s: bytes, k: nat)
    requires 0 < k <= |s|
    ensures ValidPrefix(s[..k]) <= ValidPrefix(s)
  {
    var p := s[..k];
    assert forall i | 0 <= i < k :: p[i] == s[i];
    RunOfPrefix(s, k, 2, if Expected(s[0]) >= 2 then Expected(s[0]) else 2);
  }

  lemma {:induction false} RunOfPrefix(s: bytes, k: nat, n: nat, limit: nat)
    requires k <= |s| && n <= limit
    ensures Continuations(s[..k], n, limit) <= Continuations(s, n, limit)
    decreases limit - n
  {
    if n < limit && n < k && Continuation(s[n]) { RunOfPrefix(s, k, n + 1, limit); }
  }

  /** A character with the given beginning. */
  function Finish(p: bytes): (m: bytes)
    requires p != []
    ensures p <= m
  {
    var e := Expected(p[0]);
    var q := if |p| == 1 && e >= 2 then [p[0], SecondLow(p[0])] else p;
    if |q| < e then q + seq(e - |q|, _ => 0x80) else p + (if e == 2 && |p| == 1 then [SecondLow(p[0])] else [])
  }

  /** The prefix the scanner found opens a character, and no longer one does. */
  lemma PrefixIsLongest(s: bytes)
    requires s != [] && s[0] >= 0x80
    ensures ValidPrefix(s) == 1 || Opens(s[..ValidPrefix(s)])
    ensures forall k | ValidPrefix(s) < k <= |s| :: !Opens(s[..k])
  {
    var n := ValidPrefix(s);
    var p := s[..n];
    if n >= 2 {
      assert Unit(Finish(p)) && p <= Finish(p);
    }
    forall k | n < k <= |s|
      ensures !Opens(s[..k])
    {
      ValidPrefixOfPrefix(s, k);
      forall m
        ensures !(Unit(m) && s[..k] <= m)
      {
        OpeningIsValid(s[..k], m);
      }
    }
  }

  /** Every byte string has a segmentation, and the scanner outputs its repair. */
  lemma {:induction false} Segmentation(s: bytes) returns (segs: seq<Segment>)
    ensures Segmented(s, segs) && Repaired(segs) == Sanitize(s)
    decreases |s|
  {
    if s == [] { segs := []; return; }
    var n := if s[0] < 0x80 then 1 else ValidPrefix(s);
    var tail := Segmentation(s[n..]);
    var seg := FirstSegment(s, n);
    segs := [seg] + tail;
    assert segs[1..] == tail;
  }

  lemma FirstSegment(s: bytes, n: nat) returns (seg: Segment)
    requires s != [] && n == if s[0] < 0x80 then 1 else ValidPrefix(s)
    ensures seg.m == s[..n] && seg.m <= s && s[|seg.m|..] == s[n..]
    ensures if seg.Character? then Unit(seg.m) else MaximalSubpart(seg.m, s)
    ensures Sanitize(s) == (if seg.Character? then seg.m else REPLACEMENT) + Sanitize(s[n..])
  {
    if s[0] < 0x80 {
      seg := Character(s[..n]);
    } else {
      CompleteIsUnit(s);
      PrefixIsLongest(s);
      seg := if n == Expected(s[0]) then Character(s[..n]) else Subpart(s[..n]);
    }
  }

  /** The rule leaves no freedom: any segmentation repairs to what the scanner outputs. */
  lemma {:induction false} RepairIsUnique(s: bytes, segs: seq<Segment>)
    requires Segmented(s, segs)
    ensures Repaired(segs) == Sanitize(s)
    decreases |segs|
  {
    if segs != [] {
      var m := segs[0].m;
      RepairIsUnique(s[|m|..], segs[1..]);
      if segs[0].Character? { CharacterIsKept(m, s); } else { SubpartIsReplaced(m, s); }
    }
  }

  lemma CharacterIsKept(m: bytes, s: bytes)
    requires Unit(m) && m <= s
    ensures Sanitize(s) == m + Sanitize(s[|m|..])
  {
    assert m == s[..|m|] && m[0] == s[0];
    if s[0] >= 0x80 {
      assert ValidPrefix(s) == |m|;
    }
  }

  lemma SubpartIsReplaced(m: bytes, s: bytes)
    requires MaximalSubpart(m, s)
    ensures Sanitize(s) == REPLACEMENT + Sanitize(s[|m|..])
  {
    AsciiIsConvertible(s);
    CompleteIsUnit(s);
    PrefixIsLongest(s);
    var n := ValidPrefix(s);
    assert m == s[..|m|] && !Unit(s[..n]);
  }

  lemma AsciiIsConvertible(s: bytes)
    requires s != [] && Unconvertible(s)
    ensures s[0] >= 0x80
  {
    assert !Unit(s[..1]);
  }

  // ----- Consequences

  lemma {:induction false} SanitizedIsWellFormed(s: bytes)
    ensures WellFormed(Sanitize(s))
  {
    var segs := Segmentation(s);
    RepairedIsWellFormed(s, segs);
  }

  lemma {:induction false} RepairedIsWellFormed(s: bytes, segs: seq<Segment>)
    requires Segmented(s, segs)
    ensures WellFormed(Repaired(segs))
    decreases |segs|
  {
    if segs != [] {
      RepairedIsWellFormed(s[|segs[0].m|..], segs[1..]);
      var m := if segs[0].Character? then segs[0].m else REPLACEMENT;
      UnitThenWellFormed(m, Repaired(segs[1..]));
    }
  }

  lemma UnitThenWellFormed(m: bytes, s: bytes)
    requires Unit(m)
    ensures WellFormed(m + s) == WellFormed(s)
  {
    UnitLengthFindsUnit(m, m + s);
    assert (m + s)[|m|..] == s;
  }

  /** Well-formed text passes unchanged, so repairing twice is repairing once. */
  lemma {:induction false} SanitizeKeepsWellFormed(s: bytes)
    requires WellFormed(s)
    ensures Sanitize(s) == s
    decreases |s|
  {
    if s != [] {
      var n := UnitLength(s);
      SanitizeKeepsWellFormed(s[n..]);
      CharacterIsKept(s[..n], s);
    }
  }

  lemma SanitizeIdempotent(s: bytes)
    ensures Sanitize(Sanitize(s)) == Sanitize(s)
  {
    SanitizedIsWellFormed(s);
    SanitizeKeepsWellFormed(Sanitize(s));
  }

  /** An ASCII byte never belongs to what precedes it, so the repair can be cut there. */
  lemma {:induction false} SanitizeSplits(a: bytes, b: bytes)
    requires b == [] || b[0] < 0x80
    ensures Sanitize(a + b) == Sanitize(a) + Sanitize(b)
    decreases |a|
  {
    if a == [] {
      assert a + b == b;
    } else if a[0] < 0x80 {
      SanitizeSplits(a[1..], b);
      assert (a + b)[1..] == a[1..] + b;
    } else {
      var n := ValidPrefix(a);
      SanitizeSplits(a[n..], b);
      FirstPieceOfSplit(a, b);
      var piece := if n == Expected(a[0]) then a[..n] else REPLACEMENT;
      Assoc(piece, Sanitize(a[n..]), Sanitize(b));
    }
  }

  lemma FirstPieceOfSplit(a: bytes, b: bytes)
    requires a != [] && a[0] >= 0x80 && (b == [] || b[0] < 0x80)
    ensures var n := ValidPrefix(a);
            Sanitize(a + b) == (if n == Expected(a[0]) then a[..n] else REPLACEMENT) + Sanitize(a[n..] + b)
  {
    PrefixStopsAtAscii(a, b);
    var n := ValidPrefix(a);
    assert (a + b)[n..] == a[n..] + b && (a + b)[..n] == a[..n];
  }

  lemma PrefixStopsAtAscii(a: bytes, b: bytes)
    requires a != [] && a[0] >= 0x80
    requires b == [] || b[0] < 0x80
    ensures ValidPrefix(a + b) == ValidPrefix(a)
  {
    var s := a + b;
    var r := Continuations(a, 2, 4);
    assert forall i | 0 <= i < |a| :: s[i] == a[i];
    assert |s| > |a| ==> s[|a|] == b[0];
  }

  lemma {:induction false} AsciiPassesUnchanged(s: bytes)
    requires Ascii(s)
    ensures Sanitize(s) == s
  {
    AsciiIsWellFormed(s);
    SanitizeKeepsWellFormed(s);
  }
}
