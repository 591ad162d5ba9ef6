/** What every parsed value has in common, and what the serialiser's output looks like. */
module Meanings {
  import opened Options
  import opened Bytes
  import opened Utf8
  import opened Json
  import opened Grammar
  import opened Reader
  import opened KeySort
  import opened Serializer
  import opened Soundness
  import opened RoundTrip

  // ----- Integers

  /** A literal without leading zeros is the shortest text of its number. */
  lemma {:induction false} DecimalTextOfDecimal(whole: bytes)
    requires WholeShaped(whole)
    ensures DecimalText(Decimal(whole)) == whole
  {
    var n := |whole| - 1;
    var last: int := whole[n] - ZERO;
    if n == 0 {
      assert whole[..0] == [];
      assert whole == [whole[0]];
    } else {
      var front := whole[..n];
      DecimalTextOfDecimal(front);
      DecimalIsPositive(front);
      assert Decimal(whole) == 10 * Decimal(front) + last;
      assert Decimal(whole) / 10 == Decimal(front) && Decimal(whole) % 10 == last;
      assert whole == front + [whole[n]];
    }
  }

  lemma {:induction false} DecimalIsPositive(whole: bytes)
    requires whole != [] && AllDigits(whole) && whole[0] != ZERO
    ensures Decimal(whole) > 0
  {
    if |whole| > 1 { DecimalIsPositive(whole[..|whole| - 1]); }
  }

  lemma IntegerMeaningIsCanonical(minus: bool, whole: bytes, depth: nat, digits: nat)
    requires WholeShaped(whole) && |whole| <= digits && depth >= 1
    ensures Canonical(IntegerMeaning(minus, whole)) && ValueWithin(IntegerMeaning(minus, whole), depth, digits)
  {
    DecimalTextOfDecimal(whole);
    var v := IntegerMeaning(minus, whole);
    if v.Raw? {
      RawIsSplit(v.token, minus, whole);
      assert IsRaw(v.token, minus, whole);
    }
  }

  // ----- Parsed values are canonical

  lemma {:induction false} MeaningIsCanonical(t: Tree, depth: nat, digits: nat)
    requires WellShaped(t) && Depth(t) <= depth && DigitsWithin(t, digits)
    ensures Canonical(Meaning(t)) && ValueWithin(Meaning(t), depth, digits)
    decreases t
  {
    match t
    case Word(v) =>
    case Number(minus, whole, fraction, exponent) =>
      if fraction == [] && exponent.NoExponent? { IntegerMeaningIsCanonical(minus, whole, depth, digits); }
    case Str(items) => PointsNeverPair(items);
    case Arr(_, elements) => ElementsAreCanonical(elements, depth - 1, digits);
    case Obj(_, members) => MembersAreCanonical(members, [], depth - 1, digits);
  }

  lemma {:induction false} ElementsAreCanonical(es: Elements, depth: nat, digits: nat)
    requires ElementsShaped(es) && ElementsDepth(es) <= depth && ElementsDigitsWithin(es, digits)
    ensures forall i | 0 <= i < |ElementsMeaning(es)| ::
              Canonical(ElementsMeaning(es)[i]) && ValueWithin(ElementsMeaning(es)[i], depth, digits)
    decreases es
  {
    if es.Element? {
      MeaningIsCanonical(es.value, depth, digits);
      ElementsAreCanonical(es.more, depth, digits);
    }
  }

  ghost predicate CanonicalMembers(members: seq<(bytes, Value)>, depth: nat, digits: nat) {
    Distinct(members)
    && forall i | 0 <= i < |members| :: CanonicalMember(members[i]) && MemberWithin(members[i], depth, digits)
  }

  lemma {:induction false} MembersAreCanonical(ms: Members, sofar: seq<(bytes, Value)>, depth: nat, digits: nat)
    requires MembersShaped(ms) && MembersDepth(ms) <= depth && MembersDigitsWithin(ms, digits)
    requires CanonicalMembers(sofar, depth, digits)
    ensures CanonicalMembers(MembersMeaning(ms, sofar), depth, digits)
    decreases ms
  {
    if ms.Member? {
      MeaningIsCanonical(ms.value, depth, digits);
      PointsNeverPair(ms.key);
      var key := EncodeAll(Points(ms.key));
      assert Wtf8(key);
      UpsertCanonical(sofar, key, Meaning(ms.value), depth, digits);
      MembersAreCanonical(ms.more, Upsert(sofar, key, Meaning(ms.value)), depth, digits);
    }
  }

  lemma UpsertCanonical(sofar: seq<(bytes, Value)>, key: bytes, v: Value, depth: nat, digits: nat)
    requires CanonicalMembers(sofar, depth, digits)
    requires Wtf8(key) && Canonical(v) && ValueWithin(v, depth, digits)
    ensures CanonicalMembers(Upsert(sofar, key, v), depth, digits)
  {
    assert CanonicalMember((key, v)) && MemberWithin((key, v), depth, digits);
  }

  /** Whatever the parser returns is canonical and within the bounds. */
  lemma ParsedIsCanonical(text: bytes, lim: Limits)
    requires WellFormed(text) && ReadDocument(text, lim).Some?
    ensures Canonical(ReadDocument(text, lim).value)
    ensures ValueWithin(ReadDocument(text, lim).value, lim.depth, lim.digits)
  {
    var lead, t, trail := ReadDocumentIsDerived(text, lim);
    MeaningIsCanonical(t, lim.depth, lim.digits);
  }

  // ----- Objects

  /** The meaning of the last member with the given key. */
  function LastValue(ms: Members, key: bytes): Option<Value>
    requires MembersShaped(ms)
  {
    match ms
    case NoMembers => None
    case Member(_, k, _, _, value, _, more) =>
      var later := LastValue(more, key);
      if later.Some? then later
      else if EncodeAll(Points(k)) == key then Some(Meaning(value))
      else None
  }

  /** A parsed object has distinct keys, and looking one up finds its last occurrence. */
  lemma FindIsLastOccurrence(t: Tree, key: bytes)
    requires WellShaped(t) && t.Obj?
    ensures Meaning(t).Object? && Distinct(Meaning(t).members)
    ensures Find(Meaning(t), key) == LastValue(t.members, key)
  {
    MembersFind(t.members, [], key);
  }

  lemma {:induction false} MembersFind(ms: Members, sofar: seq<(bytes, Value)>, key: bytes)
    requires MembersShaped(ms) && Distinct(sofar)
    ensures Distinct(MembersMeaning(ms, sofar))
    ensures Find(Object(MembersMeaning(ms, sofar)), key)
         == if LastValue(ms, key).Some? then LastValue(ms, key) else Find(Object(sofar), key)
    decreases ms
  {
    if ms.Member? {
      var k, v := EncodeAll(Points(ms.key)), Meaning(ms.value);
      UpsertFind(sofar, k, v, key);
      MembersFind(ms.more, Upsert(sofar, k, v), key);
    }
  }

  lemma UpsertFind(members: seq<(bytes, Value)>, k: bytes, v: Value, key: bytes)
    requires Distinct(members)
    ensures Find(Object(Upsert(members, k, v)), key) == if k == key then Some(v) else Find(Object(members), key)
  {
    var r := Upsert(members, k, v);
    var i := IndexOf(members, k);
    IndexOfAny(r, key, i);
    var j := IndexOf(members, key);
    IndexOfAny(r, key, j);
    if j < |members| { assert r[j].0 == key || k == key; }
  }

  /** In a list with distinct keys an entry is where its key is found. */
  lemma IndexOfAny(members: seq<(bytes, Value)>, key: bytes, i: nat)
    requires Distinct(members)
    ensures i < |members| && members[i].0 == key ==> IndexOf(members, key) == i
  {
  }

  // ----- The serialiser's output

  predicate Printable(s: bytes) { forall i | 0 <= i < |s| :: 0x20 <= s[i] <= 0x7E }

  lemma PointTextPrintable(c: codepoint)
    ensures Printable(PointText(c))
  {
  }

  lemma ConcatPrintable(a: bytes, b: bytes)
    requires Printable(a) && Printable(b)
    ensures Printable(a + b)
  {
  }

  lemma {:induction false} DumpCharsPrintable(s: bytes)
    ensures Printable(DumpChars(s))
    decreases |s|
  {
    if s != [] {
      if ShortEscape(s[0]).Some? {
        DumpCharsPrintable(s[1..]);
        ConcatPrintable([BACKSLASH, ShortEscape(s[0]).value], DumpChars(s[1..]));
      } else {
        var r := NextCodePoint(s);
        DumpCharsPrintable(s[r.length..]);
        PointTextPrintable(r.point);
        ConcatPrintable(PointText(r.point), DumpChars(s[r.length..]));
      }
    }
  }

  lemma DumpTextPrintable(s: bytes)
    ensures Printable(DumpText(s))
  {
    DumpCharsPrintable(s);
  }

  lemma {:induction false} JoinedPrintable(ts: seq<bytes>)
    requires forall i | 0 <= i < |ts| :: Printable(ts[i])
    ensures Printable(Joined(ts))
  {
    if ts != [] { JoinedPrintable(ts[1..]); }
  }

  lemma IntIsPrintable(n: int)
    ensures Printable(IntText(n))
  {
  }

  lemma RawIsPrintable(token: bytes)
    requires CanonicalRaw(token)
    ensures Printable(token)
  {
    var minus, whole :| IsRaw(token, minus, whole);
  }

  /** Only printable ASCII is written, so never a line feed. */
  lemma {:induction false} DumpIsPrintable(v: Value, fmt: Format)
    requires Canonical(v)
    requires DoubleFree(v) || forall token :: Printable(fmt(token))
    ensures Printable(Dump(v, fmt))
    decreases v, 1
  {
    match v
    case Int(n) => IntIsPrintable(n);
    case Raw(token) => RawIsPrintable(token);
    case Text(s) => DumpTextPrintable(s);
    case Array(items) =>
      forall i | 0 <= i < |items|
        ensures Printable(DumpAll(items, fmt)[i])
      {
        DumpIsPrintable(items[i], fmt);
      }
      JoinedPrintable(DumpAll(items, fmt));
    case Object(members) =>
      forall m | m in members
        ensures Printable(Dump(m.1, fmt))
      {
        var i := PlaceOf(members, m);
        MemberIsPrintable(members[i], fmt);
      }
      ObjectIsPrintable(members, fmt);
    case _ =>
  }

  lemma {:induction false} MemberIsPrintable(m: (bytes, Value), fmt: Format)
    requires CanonicalMember(m)
    requires DoubleFreeMember(m) || forall token :: Printable(fmt(token))
    ensures Printable(Dump(m.1, fmt))
    decreases m, 0
  {
    DumpIsPrintable(m.1, fmt);
  }

  lemma MemberTextPrintable(key: bytes, text: bytes)
    requires Printable(text)
    ensures Printable(MemberText((key, text)))
  {
    DumpTextPrintable(key);
    ConcatPrintable(COLON_SPACE, text);
  }

  lemma ObjectIsPrintable(members: seq<(bytes, Value)>, fmt: Format)
    requires forall m | m in members :: Printable(Dump(m.1, fmt))
    ensures Printable(Dump(Object(members), fmt))
  {
    SortMembership(members);
    SortThenDump(members, fmt);
    var s := Sort(members);
    var ts := MemberTexts(Sort(DumpMembers(members, fmt)));
    forall i | 0 <= i < |ts|
      ensures Printable(ts[i])
    {
      SortedMember(members, i);
      assert ts[i] == MemberText((s[i].0, Dump(s[i].1, fmt)));
      MemberTextPrintable(s[i].0, Dump(s[i].1, fmt));
    }
    JoinedPrintable(ts);
  }

  // ----- Arranging is canonical

  /** Arranging a value does not change its text, so serialising what was parsed from a
      serialised value gives the same bytes. */
  lemma {:induction false} DumpOfArranged(v: Value, fmt: Format)
    ensures Dump(Arranged(v), fmt) == Dump(v, fmt)
    decreases v, 1
  {
    match v
    case Array(items) =>
      forall i | 0 <= i < |items|
        ensures Dump(ArrangedAll(items)[i], fmt) == Dump(items[i], fmt)
      {
        DumpOfArranged(items[i], fmt);
      }
      assert DumpAll(ArrangedAll(items), fmt) == DumpAll(items, fmt);
    case Object(members) =>
      forall m | m in members
        ensures Dump(Arranged(m.1), fmt) == Dump(m.1, fmt)
      {
        var i := PlaceOf(members, m);
        DumpOfArrangedMember(members[i], fmt);
      }
      DumpOfArrangedObject(members, fmt);
    case _ =>
  }

  lemma {:induction false} DumpOfArrangedMember(m: (bytes, Value), fmt: Format)
    ensures Dump(Arranged(m.1), fmt) == Dump(m.1, fmt)
    decreases m, 0
  {
    DumpOfArranged(m.1, fmt);
  }

  lemma DumpOfArrangedObject(members: seq<(bytes, Value)>, fmt: Format)
    requires forall m | m in members :: Dump(Arranged(m.1), fmt) == Dump(m.1, fmt)
    ensures Dump(Arranged(Object(members)), fmt) == Dump(Object(members), fmt)
  {
    var f := (v: Value) => Dump(v, fmt);
    var s := Sort(members);
    var a := MapValues(Arranged, s);
    SortMembership(members);
    assert forall i | 0 <= i < |s| :: s[i] in members;
    ArrangedObject(members);
    SortIsStable(members);
    SortOfOrdered(s);
    SortMapped(Arranged, s);
    SortThenDump(a, fmt);
    SortThenDump(members, fmt);
    assert MapValues(f, a) == MapValues(f, s);
  }
}
