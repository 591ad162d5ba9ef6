/** Serialising and parsing undo each other. The proof gives every value a syntax tree whose
    text is what the serialiser writes, and lets `Completeness` read it back. */
module RoundTrip {
  import opened Options
  import opened Bytes
  import opened Utf8
  import opened Json
  import opened Grammar
  import opened Reader
  import opened KeySort
  import opened Serializer
  import opened Completeness
  import opened Soundness
  import opened Sanitizer

  // ----- Strings

  /** How the serialiser spells one code point. */
  function PointItems(c: codepoint): seq<Item> {
    if c < 0x80 && ShortEscape(c).Some? then [Escape(ShortEscape(c).value)]
    else if c < 0x20 then [Unicode(HexText(c))]
    else if c < 0x7F then [Plain(c)]
    else if c <= 0xFFFF then [Unicode(HexText(c))]
    else [Unicode(HexText(HighOf(c))), Unicode(HexText(LowOf(c)))]
  }

  function AllItems(cs: seq<codepoint>): seq<Item> {
    if cs == [] then [] else PointItems(cs[0]) + AllItems(cs[1..])
  }

  lemma {:induction false} ItemsTextConcat(a: seq<Item>, b: seq<Item>)
    ensures ItemsText(a + b) == ItemsText(a) + ItemsText(b)
  {
    if a == [] {
      assert a + b == b;
    } else {
      ItemsTextConcat(a[1..], b);
      assert (a + b)[1..] == a[1..] + b;
      Assoc(ItemText(a[0]), ItemsText(a[1..]), ItemsText(b));
    }
  }

  lemma OneItem(i: Item)
    ensures ItemsText([i]) == ItemText(i)
  {
    assert ItemsText([i]) == ItemText(i) + ItemsText([i][1..]);
  }

  lemma PointItemsText(c: codepoint)
    ensures ItemsShaped(PointItems(c))
    ensures c < 0x80 && ShortEscape(c).Some? ==> ItemsText(PointItems(c)) == [BACKSLASH, ShortEscape(c).value]
    ensures !(c < 0x80 && ShortEscape(c).Some?) ==> ItemsText(PointItems(c)) == PointText(c)
  {
    var items := PointItems(c);
    OneItem(items[0]);
    if |items| == 2 {
      OneItem(items[1]);
      ItemsTextConcat([items[0]], [items[1]]);
      assert items == [items[0]] + [items[1]];
    }
  }

  lemma {:induction false} DumpCharsAreItems(cs: seq<codepoint>)
    ensures ItemsShaped(AllItems(cs)) && DumpChars(EncodeAll(cs)) == ItemsText(AllItems(cs))
  {
    if cs != [] {
      var c := cs[0];
      DumpCharsAreItems(cs[1..]);
      PointItemsText(c);
      ItemsTextConcat(PointItems(c), AllItems(cs[1..]));
      NextReadsEncoded(c, EncodeAll(cs[1..]));
      Dropped(Encode(c), EncodeAll(cs[1..]));
      NoShortEscape(c, EncodeAll(cs[1..]));
    }
  }

  lemma NoShortEscape(c: codepoint, rest: bytes)
    ensures ShortEscape((Encode(c) + rest)[0]).Some? <==> c < 0x80 && ShortEscape(c).Some?
    ensures c < 0x80 ==> Encode(c) == [c] && (Encode(c) + rest)[0] == c
  {
    assert (Encode(c) + rest)[0] == Encode(c)[0];
  }

  lemma PointsOfPoint(c: codepoint, rest: seq<Item>)
    requires ItemsShaped(rest)
    requires High(c) ==> rest == [] || !IsUnicodeLow(rest[0])
    ensures ItemsShaped(PointItems(c) + rest)
    ensures Points(PointItems(c) + rest) == [c] + Points(rest)
  {
    PointItemsText(c);
    var items := PointItems(c) + rest;
    if c > 0xFFFF {
      assert items[1..][1..] == rest && items[1] == Unicode(HexText(LowOf(c)));
      assert Join(HighOf(c), LowOf(c)) == c;
    } else {
      assert items[1..] == rest;
    }
  }

  lemma FirstItemLow(cs: seq<codepoint>)
    requires cs != [] && IsUnicodeLow(AllItems(cs)[0])
    ensures Low(cs[0])
  {
  }

  lemma {:induction false} PointsOfItems(cs: seq<codepoint>)
    requires NoPair(cs)
    ensures ItemsShaped(AllItems(cs)) && Points(AllItems(cs)) == cs
  {
    if cs != [] {
      var tail := cs[1..];
      PointsOfItems(tail);
      if tail != [] && IsUnicodeLow(AllItems(tail)[0]) { FirstItemLow(tail); }
      PointsOfPoint(cs[0], AllItems(tail));
    }
  }

  /** The syntax of a serialised string. */
  function TextItems(s: bytes): seq<Item> { AllItems(DecodeAll(s)) }

  lemma TextRoundTrip(s: bytes)
    requires Wtf8(s)
    ensures ItemsShaped(TextItems(s)) && StringText(TextItems(s)) == DumpText(s)
    ensures EncodeAll(Points(TextItems(s))) == s
  {
    Wtf8Decodes(s);
    DumpCharsAreItems(DecodeAll(s));
    PointsOfItems(DecodeAll(s));
  }

  /** `parse_string(dump_string(s))` is `s`, with nothing read beyond the closing quote. */
  lemma StringRoundTrip(s: bytes, rest: bytes)
    requires Wtf8(s)
    ensures ReadString(DumpText(s) + rest) == Ok(s, rest)
  {
    TextRoundTrip(s);
    StringIsRead(TextItems(s), rest);
  }

  /** From well-formed text the parser builds only WTF-8 strings. */
  lemma ReadStringIsWtf8(s: bytes)
    requires WellFormed(s) && ReadString(s).Ok?
    ensures Wtf8(ReadString(s).value) && WellFormed(ReadString(s).rest)
  {
    var items := StringHasSource(s);
    StringIsRead(items, ReadString(s).rest);
    PointsNeverPair(items);
  }

  lemma {:induction false} PointsNeverPair(items: seq<Item>)
    requires ItemsShaped(items)
    ensures NoPair(Points(items))
    ensures items != [] ==> Points(items) != [] && (Low(Points(items)[0]) ==> IsUnicodeLow(items[0]))
    decreases |items|
  {
    if items != [] {
      var rest := items[1..];
      PointsNeverPair(rest);
      if items[0].Unicode? {
        Hexadecimal4(items[0].hex);
        if rest != [] { PointsNeverPair(rest[1..]); }
      }
    }
  }

  // ----- Values

  ghost predicate CanonicalRaw(token: bytes) {
    exists minus, whole :: IsRaw(token, minus, whole)
  }

  predicate IsRaw(token: bytes, minus: bool, whole: bytes) {
    && WholeShaped(whole) && token == MinusText(minus) + whole
    && !FitsInt64(if minus then -(Decimal(whole) as int) else Decimal(whole))
  }

  /** The values the protocol handles: WTF-8 strings, distinct keys, integers of the kind the
      parser makes. */
  ghost predicate Canonical(v: Value) {
    match v
    case Int(n) => FitsInt64(n)
    case Text(s) => Wtf8(s)
    case Raw(token) => CanonicalRaw(token)
    case Array(items) => forall i | 0 <= i < |items| :: Canonical(items[i])
    case Object(members) => Distinct(members) && forall i | 0 <= i < |members| :: CanonicalMember(members[i])
    case _ => true
  }

  ghost predicate CanonicalMember(m: (bytes, Value)) { Wtf8(m.0) && Canonical(m.1) }

  predicate DoubleFree(v: Value) {
    match v
    case Double(d) => !d.Finite?
    case Array(items) => forall i | 0 <= i < |items| :: DoubleFree(items[i])
    case Object(members) => forall i | 0 <= i < |members| :: DoubleFreeMember(members[i])
    case _ => true
  }

  predicate DoubleFreeMember(m: (bytes, Value)) { DoubleFree(m.1) }

  function Magnitude(n: int): nat { if n < 0 then -n else n }

  /** No deeper than `depth`, and no integer longer than `digits`. */
  predicate ValueWithin(v: Value, depth: nat, digits: nat) {
    depth >= 1 &&
    match v
    case Int(n) => |DecimalText(Magnitude(n))| <= digits
    case Raw(token) => |token| - (if token != [] && token[0] == MINUS then 1 else 0) <= digits
    case Array(items) => forall i | 0 <= i < |items| :: ValueWithin(items[i], depth - 1, digits)
    case Object(members) => forall i | 0 <= i < |members| :: MemberWithin(members[i], depth - 1, digits)
    case _ => true
  }

  predicate MemberWithin(m: (bytes, Value), depth: nat, digits: nat) { ValueWithin(m.1, depth, digits) }

  /** The same value with every object's members in key order. */
  function Arranged(v: Value): Value {
    match v
    case Array(items) => Array(ArrangedAll(items))
    case Object(members) => Object(Sort(ArrangedMembers(members)))
    case _ => v
  }

  function ArrangedAll(items: seq<Value>): (r: seq<Value>)
    ensures |r| == |items|
    ensures forall i | 0 <= i < |items| :: r[i] == Arranged(items[i])
  {
    if items == [] then [] else [Arranged(items[0])] + ArrangedAll(items[1..])
  }

  function ArrangedMembers(members: seq<(bytes, Value)>): (r: seq<(bytes, Value)>) {
    if members == [] then [] else [ArrangedMember(members[0])] + ArrangedMembers(members[1..])
  }

  function ArrangedMember(m: (bytes, Value)): (bytes, Value) { (m.0, Arranged(m.1)) }

  lemma {:induction false} ArrangedMembersMapped(members: seq<(bytes, Value)>)
    ensures ArrangedMembers(members) == MapValues(Arranged, members)
  {
    if members != [] { ArrangedMembersMapped(members[1..]); }
  }

  lemma ArrangedObject(members: seq<(bytes, Value)>)
    ensures Arranged(Object(members)) == Object(MapValues(Arranged, Sort(members)))
  {
    ArrangedMembersMapped(members);
    SortMapped(Arranged, members);
  }

  // ----- The tree of a serialised value

  function TreeOf(v: Value): Tree {
    match v
    case Int(n) => Number(n < 0, DecimalText(Magnitude(n)), [], NoExponent)
    case Text(s) => Str(TextItems(s))
    case Raw(token) =>
      if token != [] && token[0] == MINUS then Number(true, token[1..], [], NoExponent)
      else Number(false, token, [], NoExponent)
    case Array(items) => Arr([], ElementsOf(TreesOf(items), []))
    case Object(members) => Obj([], MembersOf(Sort(MemberTrees(members)), []))
    case _ => Word(v)
  }

  function TreesOf(items: seq<Value>): (ts: seq<Tree>)
    ensures |ts| == |items|
    ensures forall i | 0 <= i < |items| :: ts[i] == TreeOf(items[i])
  {
    if items == [] then [] else [TreeOf(items[0])] + TreesOf(items[1..])
  }

  function MemberTrees(members: seq<(bytes, Value)>): seq<(bytes, Tree)> {
    if members == [] then [] else [MemberTree(members[0])] + MemberTrees(members[1..])
  }

  function MemberTree(m: (bytes, Value)): (bytes, Tree) { (m.0, TreeOf(m.1)) }

  lemma {:induction false} MemberTreesMapped(members: seq<(bytes, Value)>)
    ensures MemberTrees(members) == MapValues(TreeOf, members)
  {
    if members != [] { MemberTreesMapped(members[1..]); }
  }

  /** Elements with `lead` before the first and a space before each other. */
  function ElementsOf(ts: seq<Tree>, lead: bytes): Elements {
    if ts == [] then NoElements else Element(lead, ts[0], [], ElementsOf(ts[1..], [SPACE]))
  }

  function MembersOf(ms: seq<(bytes, Tree)>, lead: bytes): Members {
    if ms == [] then NoMembers
    else Member(lead, TextItems(ms[0].0), [], [SPACE], ms[0].1, [], MembersOf(ms[1..], [SPACE]))
  }

  /** The tree of `v` is in the language and within the bounds, its text is what the
      serialiser writes, and it means `v` arranged. */
  ghost predicate Faithful(v: Value, fmt: Format, depth: nat, digits: nat) {
    var t := TreeOf(v);
    && WellShaped(t) && Depth(t) <= depth && DigitsWithin(t, digits)
    && Source(t) == Dump(v, fmt) && Meaning(t) == Arranged(v)
  }

  lemma IntIsFaithful(v: Value, fmt: Format, depth: nat, digits: nat)
    requires v.Int? && FitsInt64(v.n) && ValueWithin(v, depth, digits)
    ensures Faithful(v, fmt, depth, digits)
  {
    var whole := DecimalText(Magnitude(v.n));
    IntegerOfText(v.n);
    NothingBefore(whole);
    NumberIsFaithful(v, v.n < 0, whole, fmt, depth, digits);
  }

  /** An integer whose text is a number of the grammar with itself as meaning. */
  lemma NumberIsFaithful(v: Value, minus: bool, whole: bytes, fmt: Format, depth: nat, digits: nat)
    requires (v.Int? || v.Raw?) && TreeOf(v) == Number(minus, whole, [], NoExponent)
    requires WholeShaped(whole) && |whole| <= digits && depth >= 1
    requires Dump(v, fmt) == MinusText(minus) + whole && IntegerMeaning(minus, whole) == v
    ensures Faithful(v, fmt, depth, digits)
  {
    PlainNumberText(minus, whole);
  }

  lemma IntegerOfText(n: int)
    requires FitsInt64(n)
    ensures IntegerMeaning(n < 0, DecimalText(Magnitude(n))) == Int(n)
  {
  }

  lemma RawIsFaithful(v: Value, fmt: Format, depth: nat, digits: nat)
    requires v.Raw? && CanonicalRaw(v.token) && ValueWithin(v, depth, digits)
    ensures Faithful(v, fmt, depth, digits)
  {
    var minus, whole :| IsRaw(v.token, minus, whole);
    RawIsSplit(v.token, minus, whole);
    NumberIsFaithful(v, minus, whole, fmt, depth, digits);
  }

  lemma RawIsSplit(token: bytes, minus: bool, whole: bytes)
    requires WholeShaped(whole) && token == MinusText(minus) + whole
    ensures token != [] && (token[0] == MINUS <==> minus) && token[|MinusText(minus)|..] == whole
  {
  }

  lemma PlainNumberText(minus: bool, whole: bytes)
    ensures NumberText(minus, whole, [], NoExponent) == MinusText(minus) + whole
  {
    assert FractionText([]) + ExponentText(NoExponent) == [];
    assert whole + [] == whole;
  }

  lemma {:induction false} ValueIsFaithful(v: Value, fmt: Format, depth: nat, digits: nat)
    requires Canonical(v) && DoubleFree(v) && ValueWithin(v, depth, digits)
    ensures Faithful(v, fmt, depth, digits)
    decreases v, 1
  {
    match v
    case Int(_) => IntIsFaithful(v, fmt, depth, digits);
    case Raw(_) => RawIsFaithful(v, fmt, depth, digits);
    case Text(s) => TextRoundTrip(s);
    case Array(items) =>
      forall i | 0 <= i < |items|
        ensures Faithful(items[i], fmt, depth - 1, digits)
      {
        ValueIsFaithful(items[i], fmt, depth - 1, digits);
      }
      ArrayIsFaithful(items, fmt, depth, digits);
    case Object(members) =>
      forall m | m in members
        ensures CanonicalMember(m) && Faithful(m.1, fmt, depth - 1, digits)
      {
        var i := PlaceOf(members, m);
        MemberIsFaithful(members[i], fmt, depth - 1, digits);
      }
      ObjectIsFaithful(members, fmt, depth, digits);
    case _ =>
  }

  lemma {:induction false} MemberIsFaithful(m: (bytes, Value), fmt: Format, depth: nat, digits: nat)
    requires CanonicalMember(m) && DoubleFreeMember(m) && MemberWithin(m, depth, digits)
    ensures Faithful(m.1, fmt, depth, digits)
    decreases m, 0
  {
    ValueIsFaithful(m.1, fmt, depth, digits);
  }

  lemma ArrayIsFaithful(items: seq<Value>, fmt: Format, depth: nat, digits: nat)
    requires depth >= 1
    requires forall i | 0 <= i < |items| :: Faithful(items[i], fmt, depth - 1, digits)
    ensures Faithful(Array(items), fmt, depth, digits)
  {
    ElementsAreFaithful(items, [], fmt, depth - 1, digits);
    var text := ElementsText(ElementsOf(TreesOf(items), []));
    assert [] + Joined(DumpAll(items, fmt)) == Joined(DumpAll(items, fmt));
    assert [] + (text + [RBRACKET]) == text + [RBRACKET];
  }

  lemma {:induction false} ElementsAreFaithful(items: seq<Value>, lead: bytes, fmt: Format, depth: nat, digits: nat)
    requires AllSpace(lead)
    requires forall i | 0 <= i < |items| :: Faithful(items[i], fmt, depth, digits)
    ensures var es := ElementsOf(TreesOf(items), lead);
            && ElementsShaped(es) && ElementsDepth(es) <= depth && ElementsDigitsWithin(es, digits)
            && ElementsMeaning(es) == ArrangedAll(items)
            && ElementsText(es) == (if items == [] then [] else lead) + Joined(DumpAll(items, fmt))
  {
    if items != [] {
      var tail := items[1..];
      forall i | 0 <= i < |tail|
        ensures Faithful(tail[i], fmt, depth, digits)
      {
        assert tail[i] == items[i + 1];
      }
      ElementsAreFaithful(tail, [SPACE], fmt, depth, digits);
      assert Faithful(items[0], fmt, depth, digits);
      assert TreesOf(items)[1..] == TreesOf(tail) && DumpAll(items, fmt)[1..] == DumpAll(tail, fmt);
      var joined := Joined(DumpAll(tail, fmt));
      if tail != [] { AfterComma(joined); }
      ConsElement(lead, TreeOf(items[0]), ElementsOf(TreesOf(tail), [SPACE]));
    } else {
      assert [] + Joined(DumpAll(items, fmt)) == [];
    }
  }

  /** One more element in front of the others. */
  lemma ConsElement(lead: bytes, t: Tree, more: Elements)
    requires AllSpace(lead) && WellShaped(t) && ElementsShaped(more)
    ensures var e := Element(lead, t, [], more);
            && ElementsShaped(e)
            && ElementsText(e) == lead + (Source(t) + if more.NoElements? then [] else [COMMA] + ElementsText(more))
  {
    var last := if more.NoElements? then [] else [COMMA] + ElementsText(more);
    assert [] + last == last;
  }

  /** Serialising, building the tree and arranging all work on the sorted members. */
  lemma SortedOnce(members: seq<(bytes, Value)>, fmt: Format)
    ensures var s := Sort(members);
            && TreeOf(Object(members)) == Obj([], MembersOf(MapValues(TreeOf, s), []))
            && Dump(Object(members), fmt)
               == [LBRACE] + (Joined(MemberTexts(MapValues((v: Value) => Dump(v, fmt), s))) + [RBRACE])
            && Arranged(Object(members)) == Object(MapValues(Arranged, s))
  {
    MemberTreesMapped(members);
    SortMapped(TreeOf, members);
    SortThenDump(members, fmt);
    ArrangedObject(members);
  }

  lemma ObjectIsFaithful(members: seq<(bytes, Value)>, fmt: Format, depth: nat, digits: nat)
    requires depth >= 1 && Distinct(members)
    requires forall m | m in members :: CanonicalMember(m) && Faithful(m.1, fmt, depth - 1, digits)
    ensures Faithful(Object(members), fmt, depth, digits)
  {
    SortKeepsDistinct(members);
    SortedOnce(members, fmt);
    SortKeepsFaithful(members, fmt, depth - 1, digits);
    SortedIsFaithful(Sort(members), fmt, depth, digits);
  }

  ghost predicate AllFaithful(s: seq<(bytes, Value)>, fmt: Format, depth: nat, digits: nat) {
    forall i | 0 <= i < |s| :: CanonicalMember(s[i]) && Faithful(s[i].1, fmt, depth, digits)
  }

  lemma SortKeepsFaithful(members: seq<(bytes, Value)>, fmt: Format, depth: nat, digits: nat)
    requires forall m | m in members :: CanonicalMember(m) && Faithful(m.1, fmt, depth, digits)
    ensures AllFaithful(Sort(members), fmt, depth, digits)
  {
    var s := Sort(members);
    forall i | 0 <= i < |s|
      ensures CanonicalMember(s[i]) && Faithful(s[i].1, fmt, depth, digits)
    {
      SortedMember(members, i);
    }
  }

  lemma SortedIsFaithful(s: seq<(bytes, Value)>, fmt: Format, depth: nat, digits: nat)
    requires depth >= 1 && Distinct(s) && AllFaithful(s, fmt, depth - 1, digits)
    ensures var t := Obj([], MembersOf(MapValues(TreeOf, s), []));
            && WellShaped(t) && Depth(t) <= depth && DigitsWithin(t, digits)
            && Source(t) == [LBRACE] + (Joined(MemberTexts(MapValues((v: Value) => Dump(v, fmt), s))) + [RBRACE])
            && Meaning(t) == Object(MapValues(Arranged, s))
  {
    MembersAreFaithful(s, [], fmt, depth - 1, digits);
    MembersMean(s, [], []);
    BracedSource(MembersOf(MapValues(TreeOf, s), []));
    NothingBefore(MapValues(Arranged, s));
    NothingBefore(Joined(MemberTexts(MapValues((v: Value) => Dump(v, fmt), s))));
  }

  lemma NothingBefore<T>(s: seq<T>)
    ensures [] + s == s
  {
  }

  lemma BracedSource(ms: Members)
    requires MembersShaped(ms)
    ensures WellShaped(Obj([], ms)) && Source(Obj([], ms)) == [LBRACE] + (MembersText(ms) + [RBRACE])
  {
    assert [] + (MembersText(ms) + [RBRACE]) == MembersText(ms) + [RBRACE];
  }

  lemma {:induction false} MembersAreFaithful(s: seq<(bytes, Value)>, lead: bytes, fmt: Format, depth: nat, digits: nat)
    requires AllSpace(lead)
    requires forall i | 0 <= i < |s| :: CanonicalMember(s[i]) && Faithful(s[i].1, fmt, depth, digits)
    ensures var ms := MembersOf(MapValues(TreeOf, s), lead);
            && MembersShaped(ms) && MembersDepth(ms) <= depth && MembersDigitsWithin(ms, digits)
            && MembersText(ms)
               == (if s == [] then [] else lead) + Joined(MemberTexts(MapValues((v: Value) => Dump(v, fmt), s)))
  {
    var f := (v: Value) => Dump(v, fmt);
    var texts := MemberTexts(MapValues(f, s));
    if s == [] {
      assert [] + Joined(texts) == [];
      return;
    }
    var tail := s[1..];
    MembersAreFaithful(tail, [SPACE], fmt, depth, digits);
    assert CanonicalMember(s[0]) && Faithful(s[0].1, fmt, depth, digits);
    MappedTail(TreeOf, s);
    MappedTail(f, s);
    TextsTail(MapValues(f, s));
    var tailTexts := MemberTexts(MapValues(f, tail));
    var ms := MembersOf(MapValues(TreeOf, tail), [SPACE]);
    TextRoundTrip(s[0].0);
    ConsMember(lead, s[0].0, TreeOf(s[0].1), ms);
    var joined := Joined(tailTexts);
    if tail != [] { AfterComma(joined); }
  }

  lemma TextsTail(ms: seq<(bytes, bytes)>)
    requires ms != []
    ensures MemberTexts(ms)[0] == MemberText(ms[0]) && MemberTexts(ms)[1..] == MemberTexts(ms[1..])
  {
  }

  lemma AfterComma(joined: bytes)
    ensures [COMMA] + ([SPACE] + joined) == COMMA_SPACE + joined
  {
    Assoc([COMMA], [SPACE], joined);
    assert [COMMA] + [SPACE] == COMMA_SPACE;
  }

  /** One more member in front of the others. */
  lemma ConsMember(lead: bytes, key: bytes, t: Tree, more: Members)
    requires AllSpace(lead) && Wtf8(key) && WellShaped(t) && MembersShaped(more)
    ensures var m := Member(lead, TextItems(key), [], [SPACE], t, [], more);
            && MembersShaped(m)
            && MembersText(m) == lead + ((DumpText(key) + (COLON_SPACE + Source(t)))
                                         + if more.NoMembers? then [] else [COMMA] + MembersText(more))
  {
    TextRoundTrip(key);
    OneMemberText(lead, DumpText(key), Source(t), if more.NoMembers? then [] else [COMMA] + MembersText(more));
  }

  lemma OneMemberText(lead: bytes, key: bytes, value: bytes, more: bytes)
    ensures lead + (key + ([] + ([COLON] + ([SPACE] + (value + ([] + more))))))
            == lead + ((key + (COLON_SPACE + value)) + more)
  {
    assert [] + more == more;
    assert [COLON] + ([SPACE] + (value + more)) == COLON_SPACE + (value + more);
    Assoc(COLON_SPACE, value, more);
    Assoc(key, COLON_SPACE + value, more);
    assert [] + ([COLON] + ([SPACE] + (value + more))) == [COLON] + ([SPACE] + (value + more));
  }

  /** Distinct keys are gathered one after another. */
  lemma {:induction false} MembersMean(s: seq<(bytes, Value)>, lead: bytes, sofar: seq<(bytes, Value)>)
    requires MembersShaped(MembersOf(MapValues(TreeOf, s), lead))
    requires AllMean(s) && Distinct(s) && Apart(s, sofar)
    ensures MembersMeaning(MembersOf(MapValues(TreeOf, s), lead), sofar) == sofar + MapValues(Arranged, s)
  {
    if s == [] {
      assert sofar + MapValues(Arranged, s) == sofar;
      return;
    }
    var tail := s[1..];
    var m := (s[0].0, Arranged(s[0].1));
    TextRoundTrip(s[0].0);
    MappedTail(TreeOf, s);
    MappedTail(Arranged, s);
    TailApart(s, sofar, m.1);
    NewKey(sofar, m.0, m.1);
    MembersMean(tail, [SPACE], sofar + [m]);
    Assoc(sofar, [m], MapValues(Arranged, tail));
  }

  ghost predicate AllMean(s: seq<(bytes, Value)>) {
    forall i | 0 <= i < |s| ::
      Wtf8(s[i].0) && WellShaped(TreeOf(s[i].1)) && Meaning(TreeOf(s[i].1)) == Arranged(s[i].1)
  }

  /** No key of the one is a key of the other. */
  predicate Apart(s: seq<(bytes, Value)>, sofar: seq<(bytes, Value)>) {
    forall i, j | 0 <= i < |s| && 0 <= j < |sofar| :: s[i].0 != sofar[j].0
  }

  lemma TailApart(s: seq<(bytes, Value)>, sofar: seq<(bytes, Value)>, v: Value)
    requires s != [] && AllMean(s) && Distinct(s) && Apart(s, sofar)
    ensures AllMean(s[1..]) && Distinct(s[1..]) && Apart(s[1..], sofar + [(s[0].0, v)])
    ensures forall j | 0 <= j < |sofar| :: s[0].0 != sofar[j].0
    ensures Wtf8(s[0].0) && WellShaped(TreeOf(s[0].1)) && Meaning(TreeOf(s[0].1)) == Arranged(s[0].1)
  {
  }

  lemma MappedTail<T>(f: Value -> T, s: seq<(bytes, Value)>)
    requires s != []
    ensures MapValues(f, s)[0] == (s[0].0, f(s[0].1)) && MapValues(f, s)[1..] == MapValues(f, s[1..])
    ensures MapValues(f, s) == [(s[0].0, f(s[0].1))] + MapValues(f, s[1..])
  {
  }

  lemma NewKey(sofar: seq<(bytes, Value)>, key: bytes, v: Value)
    requires forall j | 0 <= j < |sofar| :: key != sofar[j].0
    ensures Upsert(sofar, key, v) == sofar + [(key, v)]
  {
  }

  /** Parsing what was serialised gives the value with its members in key order. */
  lemma CanonicalRoundTrip(v: Value, fmt: Format, lim: Limits)
    requires Canonical(v) && DoubleFree(v) && ValueWithin(v, lim.depth, lim.digits)
    ensures ReadDocument(Dump(v, fmt), lim) == Some(Arranged(v))
  {
    ValueIsFaithful(v, fmt, lim.depth, lim.digits);
    var t := TreeOf(v);
    assert [] + (Source(t) + []) == Dump(v, fmt);
    DerivedDocumentIsRead(Dump(v, fmt), [], t, [], lim);
  }
}
