/** Replies told apart by their bytes (cpp/src/protocol.cpp:16-49): no request that was
    understood is answered with the text that reports invalid JSON. */
module Replies {
  import opened Bytes
  import opened Utf8
  import opened Json
  import opened Reader
  import opened KeySort
  import opened Serializer
  import opened RoundTrip
  import opened Protocol

  /** An object's text opens with its first member in key order. */
  lemma FirstMember(members: seq<(bytes, Value)>, fmt: Format) returns (more: bytes)
    requires members != []
    ensures |Sort(members)| == |members|
    ensures var m := Sort(members)[0];
            Dump(Object(members), fmt) == [LBRACE] + (DumpText(m.0) + (COLON_SPACE + (Dump(m.1, fmt) + more)))
  {
    var s := Sort(members);
    SortMembership(members);
    SortThenDump(members, fmt);
    var texts := MemberTexts(Sort(DumpMembers(members, fmt)));
    var others := if |texts| == 1 then [] else COMMA_SPACE + Joined(texts[1..]);
    more := others + [RBRACE];
    assert texts[0] == DumpText(s[0].0) + (COLON_SPACE + Dump(s[0].1, fmt));
    OpensWith(DumpText(s[0].0), Dump(s[0].1, fmt), others);
  }

  lemma OpensWith(key: bytes, value: bytes, others: bytes)
    ensures ((key + (COLON_SPACE + value)) + others) + [RBRACE] == key + (COLON_SPACE + (value + (others + [RBRACE])))
  {
    Assoc(key, COLON_SPACE + value, others);
    Assoc(key, (COLON_SPACE + value) + others, [RBRACE]);
    Assoc(COLON_SPACE, value, others);
    Assoc(COLON_SPACE, value + others, [RBRACE]);
    Assoc(value, others, [RBRACE]);
  }

  /** A dumped string is recognised whatever follows it. */
  lemma SameString(a: bytes, x: bytes, b: bytes, y: bytes)
    requires Wtf8(a) && Wtf8(b) && DumpText(a) + x == DumpText(b) + y
    ensures a == b && x == y
  {
    StringRoundTrip(a, x);
    StringRoundTrip(b, y);
  }

  lemma SameOpening(m: (bytes, Value), x: bytes, n: (bytes, Value), y: bytes, fmt: Format)
    requires CanonicalMember(m) && CanonicalMember(n)
    requires DumpText(m.0) + (COLON_SPACE + (Dump(m.1, fmt) + x))
             == DumpText(n.0) + (COLON_SPACE + (Dump(n.1, fmt) + y))
    ensures m.0 == n.0 && (m.1.Text? && n.1.Text? ==> m.1 == n.1)
  {
    var p, q := Dump(m.1, fmt) + x, Dump(n.1, fmt) + y;
    SameString(m.0, COLON_SPACE + p, n.0, COLON_SPACE + q);
    Dropped(COLON_SPACE, p);
    Dropped(COLON_SPACE, q);
    if m.1.Text? && n.1.Text? { SameString(m.1.s, x, n.1.s, y); }
  }

  lemma FirstIsCanonical(members: seq<(bytes, Value)>)
    requires members != [] && Canonical(Object(members))
    ensures |Sort(members)| == |members| && CanonicalMember(Sort(members)[0]) && Sort(members)[0] in members
  {
    SortMembership(members);
    SortedMember(members, 0);
  }

  /** Objects with the same text have the same first key, and the same string under it. */
  lemma SameFirstMember(a: seq<(bytes, Value)>, b: seq<(bytes, Value)>, fmt: Format)
    requires a != [] && b != [] && Dump(Object(a), fmt) == Dump(Object(b), fmt)
    requires Canonical(Object(a)) && Canonical(Object(b))
    ensures |Sort(a)| == |a| && |Sort(b)| == |b|
    ensures var m, n := Sort(a)[0], Sort(b)[0]; m.0 == n.0 && (m.1.Text? && n.1.Text? ==> m.1 == n.1)
  {
    FirstIsCanonical(a);
    FirstIsCanonical(b);
    var x := FirstMember(a, fmt);
    var y := FirstMember(b, fmt);
    var m, n := Sort(a)[0], Sort(b)[0];
    Front(LBRACE, DumpText(m.0) + (COLON_SPACE + (Dump(m.1, fmt) + x)));
    Front(LBRACE, DumpText(n.0) + (COLON_SPACE + (Dump(n.1, fmt) + y)));
    SameOpening(m, x, n, y, fmt);
  }

  /** The error code of a response is not the one for invalid JSON. */
  lemma ResponseCode(request: Value)
    ensures BuildResponse(request).Object? && BuildResponse(request).members != []
    ensures forall m | m in BuildResponse(request).members && m.0 == ERROR_CODE :: m.1.Text? && |m.1.s| > 12
  {
  }

  lemma InvalidJsonFirst()
    ensures |Sort(INVALID_JSON.members)| == 2 && Sort(INVALID_JSON.members)[0] == CodeMember("INVALID_JSON")
  {
    assert LexLess(ERROR_CODE, STATUS) by { assert ERROR_CODE[0] == 'e' as int && STATUS[0] == 's' as int; }
    SortTwo(StatusMember("error"), CodeMember("INVALID_JSON"));
  }

  lemma ResponseIsCanonical(request: Value, lim: Limits)
    requires lim.depth >= 2 && Canonical(request) && ValueWithin(request, lim.depth, lim.digits)
    ensures Canonical(BuildResponse(request))
  {
    if request.Object? {
      ObjectResponseIsGood(request, lim);
    } else {
      LiteralIsWtf8("Request must be a JSON object");
      InvalidTypeIsGood(Chars("Request must be a JSON object"), lim);
    }
  }

  /** Whatever the request, and however doubles are printed, its reply is not the reply to
      invalid JSON. */
  lemma AnsweredIsNotInvalid(request: Value, lim: Limits, fmt: Format)
    requires lim.depth >= 2 && Canonical(request) && ValueWithin(request, lim.depth, lim.digits)
    ensures Dump(BuildResponse(request), fmt) != Dump(INVALID_JSON, fmt)
  {
    ResponseIsCanonical(request, lim);
    InvalidJsonIsGood(lim);
    ResponseCode(request);
    InvalidJsonFirst();
    var a := BuildResponse(request).members;
    if Dump(Object(a), fmt) == Dump(INVALID_JSON, fmt) {
      SameFirstMember(a, INVALID_JSON.members, fmt);
      SortedMember(a, 0);
    }
  }
}
