/** The canonical serialiser of cpp/src/json.cpp:430-626: ASCII only, keys sorted, `", "`
    and `": "` between things. */
module Serializer {
  import opened Options
  import opened Bytes
  import opened Utf8
  import opened Json
  import opened Grammar
  import opened KeySort

  /** How the library prints a finite double. */
  type Format = bytes -> bytes

  const COMMA_SPACE: bytes := [COMMA, SPACE]
  const COLON_SPACE: bytes := [COLON, SPACE]

  /** The letter of a byte that has a two-letter escape. */
  function ShortEscape(b: byte): (letter: Option<byte>) {
    match b
    case 0x22 => Some(QUOTE)
    case 0x5C => Some(BACKSLASH)
    case 0x08 => Some(0x62)
    case 0x0C => Some(0x66)
    case 0x0A => Some(0x6E)
    case 0x0D => Some(0x72)
    case 0x09 => Some(0x74)
    case _ => None
  }

  function EscapeText(unit: nat): bytes
    requires unit < 0x10000
  {
    [BACKSLASH, 0x75] + HexText(unit)
  }

  function HighOf(c: codepoint): (h: nat)
    requires c >= 0x10000
    ensures High(h)
  {
    0xD800 + (c - 0x10000) / 0x400
  }

  function LowOf(c: codepoint): (l: nat)
    requires c >= 0x10000
    ensures Low(l)
  {
    0xDC00 + (c - 0x10000) % 0x400
  }

  /** A code point with no two-letter escape: itself when printable, else one escape, or two
      for a character beyond the basic plane. */
  function PointText(c: codepoint): bytes {
    if c < 0x20 then EscapeText(c)
    else if c < 0x7F then [c]
    else if c <= 0xFFFF then EscapeText(c)
    else EscapeText(HighOf(c)) + EscapeText(LowOf(c))
  }

  function DumpChars(s: bytes): bytes
    decreases |s|
  {
    if s == [] then []
    else if ShortEscape(s[0]).Some? then [BACKSLASH, ShortEscape(s[0]).value] + DumpChars(s[1..])
    else
      var r := NextCodePoint(s);
      PointText(r.point) + DumpChars(s[r.length..])
  }

  function DumpText(s: bytes): bytes { [QUOTE] + (DumpChars(s) + [QUOTE]) }

  /** Texts with `", "` between them. */
  function Joined(ts: seq<bytes>): bytes {
    if ts == [] then []
    else ts[0] + if |ts| == 1 then [] else COMMA_SPACE + Joined(ts[1..])
  }

  function MemberText(m: (bytes, bytes)): bytes { DumpText(m.0) + (COLON_SPACE + m.1) }

  function MemberTexts(ms: seq<(bytes, bytes)>): (ts: seq<bytes>)
    ensures |ts| == |ms|
    ensures forall i | 0 <= i < |ms| :: ts[i] == MemberText(ms[i])
  {
    seq(|ms|, i requires 0 <= i < |ms| => MemberText(ms[i]))
  }

  function FloatText(d: Float, fmt: Format): bytes {
    if d.Finite? then fmt(d.token) else WordText(Double(d))
  }

  function Dump(v: Value, fmt: Format): bytes {
    match v
    case Null => NULL_WORD
    case Bool(flag) => WordText(v)
    case Int(n) => IntText(n)
    case Double(d) => FloatText(d, fmt)
    case Raw(token) => token
    case Text(s) => DumpText(s)
    case Array(items) => [LBRACKET] + (Joined(DumpAll(items, fmt)) + [RBRACKET])
    case Object(members) => [LBRACE] + (Joined(MemberTexts(Sort(DumpMembers(members, fmt)))) + [RBRACE])
  }

  function DumpAll(items: seq<Value>, fmt: Format): (ts: seq<bytes>)
    ensures |ts| == |items|
    ensures forall i | 0 <= i < |items| :: ts[i] == Dump(items[i], fmt)
  {
    if items == [] then [] else [Dump(items[0], fmt)] + DumpAll(items[1..], fmt)
  }

  /** The members with their values already serialised. */
  function DumpMembers(members: seq<(bytes, Value)>, fmt: Format): (ms: seq<(bytes, bytes)>)
    ensures |ms| == |members|
  {
    if members == [] then [] else [DumpMember(members[0], fmt)] + DumpMembers(members[1..], fmt)
  }

  function DumpMember(m: (bytes, Value), fmt: Format): (bytes, bytes) { (m.0, Dump(m.1, fmt)) }

  lemma {:induction false} DumpMembersMapped(members: seq<(bytes, Value)>, fmt: Format)
    ensures DumpMembers(members, fmt) == MapValues((v: Value) => Dump(v, fmt), members)
  {
    if members != [] { DumpMembersMapped(members[1..], fmt); }
  }

  /** Serialising first and sorting then is sorting first and serialising then. */
  lemma SortThenDump(members: seq<(bytes, Value)>, fmt: Format)
    ensures Sort(DumpMembers(members, fmt)) == MapValues((v: Value) => Dump(v, fmt), Sort(members))
  {
    var f := (v: Value) => Dump(v, fmt);
    DumpMembersMapped(members, fmt);
    SortMapped(f, members);
  }

  lemma {:induction false} JoinedSnoc(ts: seq<bytes>, t: bytes)
    ensures Joined(ts + [t]) == Joined(ts) + ((if ts == [] then [] else COMMA_SPACE) + t)
  {
    if ts == [] {
      assert ts + [t] == [t];
    } else {
      JoinedSnoc(ts[1..], t);
      assert (ts + [t])[1..] == ts[1..] + [t];
      var last := (if ts[1..] == [] then [] else COMMA_SPACE) + t;
      if |ts| == 1 {
        assert Joined(ts) + (COMMA_SPACE + t) == ts[0] + (COMMA_SPACE + t);
      } else {
        Assoc(COMMA_SPACE, Joined(ts[1..]), last);
        Assoc(ts[0], COMMA_SPACE + Joined(ts[1..]), last);
      }
    }
  }

  /** The stream the serialiser writes to. */
  class Dumper {
    const fmt: Format
    var out: bytes

    constructor (fmt: Format)
      ensures this.fmt == fmt && out == []
    {
      this.fmt := fmt;
      this.out := [];
    }

    method WriteEscape(unit: nat)
      requires unit < 0x10000
      modifies this
      ensures out == old(out) + EscapeText(unit)
    {
      out := out + ([BACKSLASH, 0x75] + HexText(unit));
    }

    method DumpString(text: bytes)
      modifies this
      ensures out == old(out) + DumpText(text)
    {
      out := out + [QUOTE];
      ghost var start := out;
      var index := 0;
      while index < |text|
        invariant index <= |text|
        invariant out + DumpChars(text[index..]) == start + DumpChars(text)
      {
        ghost var s := text[index..];
        ghost var before := out;
        var c := text[index];
        var letter := ShortEscape(c);
        if letter.Some? {
          out := out + [BACKSLASH, letter.value];
          index := index + 1;
          assert text[index..] == s[1..];
          Assoc(before, [BACKSLASH, letter.value], DumpChars(s[1..]));
          continue;
        }
        var r := NextCodePoint(text[index..]);
        index := index + r.length;
        DumpPoint(r.point);
        assert text[index..] == s[r.length..];
        Assoc(before, PointText(r.point), DumpChars(s[r.length..]));
      }
      assert DumpChars(text[index..]) == [];
      assert out == start + DumpChars(text) by { assert out + [] == out; }
      out := out + [QUOTE];
      Assoc(old(out), [QUOTE], DumpChars(text));
      Assoc(old(out), [QUOTE] + DumpChars(text), [QUOTE]);
      Assoc([QUOTE], DumpChars(text), [QUOTE]);
    }

    method DumpPoint(c: codepoint)
      modifies this
      ensures out == old(out) + PointText(c)
    {
      if c < 0x20 {
        WriteEscape(c);
      } else if c < 0x7F {
        out := out + [c];
      } else if c <= 0xFFFF {
        WriteEscape(c);
      } else {
        var adjusted := c - 0x10000;
        WriteEscape(0xD800 + adjusted / 0x400);
        WriteEscape(0xDC00 + adjusted % 0x400);
        Assoc(old(out), EscapeText(HighOf(c)), EscapeText(LowOf(c)));
      }
    }

    method DumpValue(v: Value)
      modifies this
      ensures out == old(out) + Dump(v, fmt)
      decreases v, 1
    {
      match v
      case Null => out := out + NULL_WORD;
      case Bool(flag) => out := out + (if flag then TRUE_WORD else FALSE_WORD);
      case Int(n) => out := out + IntText(n);
      case Double(d) => out := out + FloatText(d, fmt);
      case Raw(token) => out := out + token;
      case Text(s) => DumpString(s);
      case Array(items) => DumpArray(v);
      case Object(members) => DumpObject(v);
    }

    method DumpArray(v: Value)
      requires v.Array?
      modifies this
      ensures out == old(out) + Dump(v, fmt)
      decreases v, 0
    {
      var items := v.items;
      ghost var ts := DumpAll(items, fmt);
      out := out + [LBRACKET];
      ghost var start := out;
      var first := true;
      for i := 0 to |items|
        invariant first == (i == 0)
        invariant out == start + Joined(ts[..i])
      {
        ghost var before := out;
        if !first {
          out := out + COMMA_SPACE;
        }
        first := false;
        DumpValue(items[i]);
        NextJoined(ts, i, start, before, out);
      }
      assert ts[..|items|] == ts;
      out := out + [RBRACKET];
      Assoc(old(out), [LBRACKET], Joined(ts));
      Assoc(old(out), [LBRACKET] + Joined(ts), [RBRACKET]);
      Assoc([LBRACKET], Joined(ts), [RBRACKET]);
    }

    method DumpObject(v: Value)
      requires v.Object?
      modifies this
      ensures out == old(out) + Dump(v, fmt)
      decreases v, 0
    {
      var entries := Sort(v.members);
      SortMembership(v.members);
      SortThenDump(v.members, fmt);
      ghost var ts := MemberTexts(Sort(DumpMembers(v.members, fmt)));
      out := out + [LBRACE];
      ghost var start := out;
      var first := true;
      for i := 0 to |entries|
        invariant first == (i == 0)
        invariant out == start + Joined(ts[..i])
      {
        ghost var before := out;
        if !first {
          out := out + COMMA_SPACE;
        }
        first := false;
        var entry := entries[i];
        ghost var j := PlaceOf(v.members, entry);
        DumpEntry(v, entry, j);
        NextJoined(ts, i, start, before, out);
      }
      assert ts[..|entries|] == ts;
      out := out + [RBRACE];
      Assoc(old(out), [LBRACE], Joined(ts));
      Assoc(old(out), [LBRACE] + Joined(ts), [RBRACE]);
      Assoc([LBRACE], Joined(ts), [RBRACE]);
    }

    method DumpEntry(ghost v: Value, entry: (bytes, Value), ghost j: nat)
      requires v.Object? && j < |v.members| && v.members[j] == entry
      modifies this
      ensures out == old(out) + MemberText((entry.0, Dump(entry.1, fmt)))
      decreases v, 0, 0
    {
      DumpString(entry.0);
      out := out + COLON_SPACE;
      DumpValue(entry.1);
      Assoc(old(out), DumpText(entry.0), COLON_SPACE);
      Assoc(old(out), DumpText(entry.0) + COLON_SPACE, Dump(entry.1, fmt));
      Assoc(DumpText(entry.0), COLON_SPACE, Dump(entry.1, fmt));
      assert out == old(out) + DumpText(entry.0) + COLON_SPACE + Dump(entry.1, fmt);
    }
  }

  lemma PlaceOf<T>(xs: seq<T>, x: T) returns (j: nat)
    requires x in xs
    ensures j < |xs| && xs[j] == x
  {
    j :| 0 <= j < |xs| && xs[j] == x;
  }

  /** Writing one more item, after a separator unless it is the first, extends the joined
      text by it. */
  lemma NextJoined(ts: seq<bytes>, i: nat, start: bytes, before: bytes, after: bytes)
    requires i < |ts| && before == start + Joined(ts[..i])
    requires after == (if i == 0 then before else before + COMMA_SPACE) + ts[i]
    ensures after == start + Joined(ts[..i + 1])
  {
    JoinedSnoc(ts[..i], ts[i]);
    assert ts[..i + 1] == ts[..i] + [ts[i]];
    var separator := if i == 0 then [] else COMMA_SPACE;
    assert before + [] == before;
    Assoc(before, separator, ts[i]);
    Assoc(start, Joined(ts[..i]), separator + ts[i]);
  }
}
