/** A request on which the two DUTs differ (cpp/src/json.cpp:87-90, simulator/simulator.py:290-296):
    the native side measures the nesting of the text, Python that of the value. */
module HiddenDepth {
  import opened Options
  import opened Bytes
  import opened Utf8
  import opened Json
  import opened Grammar
  import opened Reader
  import opened Sanitizer
  import opened Soundness
  import opened Serializer
  import opened Protocol
  import opened Nesting
  import opened PythonDut

  const ZERO_TREE: Tree := Number(false, [ZERO], [], NoExponent)

  /** A zero inside `n` arrays. */
  function Nested(n: nat): Tree {
    if n == 0 then ZERO_TREE else Arr([], Element([], Nested(n - 1), [], NoElements))
  }

  lemma {:induction false} NestedDepth(n: nat, digits: nat)
    requires digits >= 1
    ensures WellShaped(Nested(n)) && Depth(Nested(n)) == n + 1 && DigitsWithin(Nested(n), digits)
  {
    if n > 0 { NestedDepth(n - 1, digits); }
  }

  lemma {:induction false} NestedText(n: nat)
    ensures WellShaped(Nested(n)) && Ascii(Source(Nested(n)))
  {
    if n > 0 {
      NestedText(n - 1);
      var inner := Source(Nested(n - 1));
      AsciiArray(inner);
      assert ElementsText(Nested(n).elements) == [] + (inner + ([] + []));
    }
  }

  lemma AsciiArray(x: bytes)
    requires Ascii(x)
    ensures Ascii([LBRACKET] + ([] + (([] + (x + ([] + []))) + [RBRACKET])))
  {
  }

  lemma AsciiMember(key: bytes, x: bytes, more: bytes)
    requires Ascii(key) && Ascii(x) && Ascii(more)
    ensures Ascii([LBRACE] + ([] + (([] + (key + ([] + ([COLON] + ([] + (x + ([] + ([COMMA] + more)))))))) + [RBRACE])))
  {
  }

  /** `n` opening brackets, a zero, and as many closing ones. */
  function Brackets(n: nat): bytes {
    if n == 0 then ['0' as int] else ['[' as int] + (Brackets(n - 1) + [']' as int])
  }

  lemma {:induction false} BracketsNest(n: nat)
    ensures WellShaped(Nested(n)) && Source(Nested(n)) == Brackets(n)
  {
    if n > 0 {
      BracketsNest(n - 1);
      var inner := Brackets(n - 1);
      assert ElementsText(Nested(n).elements) == inner by { assert [] + (inner + ([] + [])) == inner; }
      assert [] + (inner + [RBRACKET]) == inner + [RBRACKET];
    }
  }

  lemma {:induction false} NestedMeaning(n: nat)
    requires WellShaped(Nested(n))
    ensures ValueDepth(Meaning(Nested(n))) == n + 1
  {
    if n > 0 {
      NestedMeaning(n - 1);
      var v := Meaning(Nested(n - 1));
      assert ElementsMeaning(Nested(n).elements) == [v] + ElementsMeaning(NoElements);
      assert [v] + [] == [v] && Meaning(Nested(n)) == Array([v]);
      assert [v][1..] == [];
    }
  }

  /** Where the limit falls: on both sides, a zero in brackets is accepted exactly when the
      brackets and the zero make no more levels than the limit. */
  lemma NestingBoundary(n: nat, cfg: Decoding)
    requires cfg.lim.digits >= 1 && cfg.stack >= cfg.lim.depth
    ensures ReadDocument(Brackets(n), cfg.lim).Some? <==> n + 1 <= cfg.lim.depth
    ensures PythonDecoded(Brackets(n), cfg).Some? <==> n + 1 <= cfg.lim.depth
  {
    var t := Nested(n);
    BracketsNest(n);
    NestedDepth(n, cfg.lim.digits);
    NestedMeaning(n);
    assert [] + (Source(t) + []) == Source(t);
    DerivedDocumentIsRead(Source(t), [], t, [], cfg.lim);
    DerivedDocumentIsRead(Source(t), [], t, [], Limits(cfg.stack, cfg.lim.digits));
  }

  const KEY: seq<Item> := [Plain(0x61)]

  const LAST: Members := Member([], KEY, [], [], ZERO_TREE, [], NoMembers)

  /** An object that gives a key first a deep value and then a zero. */
  function Repeating(n: nat): Tree { Obj([], Member([], KEY, [], [], Nested(n), [], LAST)) }

  lemma KeyText()
    ensures ItemsShaped(KEY) && Ascii(StringText(KEY)) && MembersShaped(LAST) && Ascii(MembersText(LAST))
  {
    assert ItemShaped(Plain(0x61));
    assert Encode(0x61) == [0x61];
    assert ItemsText(KEY) == [0x61] by { assert ItemsText([]) == [] && [0x61] + [] == [0x61]; }
  }

  lemma RepeatingDepth(n: nat, digits: nat)
    requires digits >= 1
    ensures var t := Repeating(n); WellShaped(t) && Depth(t) == n + 2 && DigitsWithin(t, digits)
  {
    KeyText();
    NestedDepth(n, digits);
    NestedDepth(0, digits);
    var t := Repeating(n);
    assert MembersDigitsWithin(LAST, digits);
    assert Depth(t) == 1 + Max(Depth(Nested(n)), MembersDepth(LAST));
  }

  lemma RepeatingText(n: nat)
    requires WellShaped(Repeating(n))
    ensures Ascii(Source(Repeating(n)))
  {
    KeyText();
    NestedText(n);
    AsciiMember(StringText(KEY), Source(Nested(n)), MembersText(LAST));
  }

  /** The later value replaces the earlier one. */
  lemma RepeatingMeaning(n: nat)
    requires WellShaped(Repeating(n))
    ensures Meaning(Repeating(n)) == Object([(EncodeAll(Points(KEY)), Int(0))])
    ensures ValueDepth(Meaning(Repeating(n))) == 2
  {
    var k := EncodeAll(Points(KEY));
    var deep := [(k, Meaning(Nested(n)))];
    assert Decimal([ZERO]) == 0 by { assert [ZERO][..0] == []; }
    assert Meaning(ZERO_TREE) == Int(0);
    assert Upsert([], k, Meaning(Nested(n))) == deep;
    assert Upsert(deep, k, Int(0)) == [(k, Int(0))];
    assert MembersMeaning(LAST, deep) == [(k, Int(0))];
    OneMemberDepth((k, Int(0)));
  }

  lemma OneMemberDepth(m: (bytes, Value))
    ensures DeepestMember([m]) == ValueDepth(m.1)
  {
    assert DeepestMember([m][1..]) == 0;
  }

  /** However large the limit, some request is too deep for the native parser, which reports
      invalid JSON, while the value Python measures has depth two, and gets an answer of its
      own: the repeated key hid the depth. */
  lemma RepeatedKeySeparates(cfg: Decoding, fmt: Format)
    requires cfg.lim.depth >= 2 && cfg.lim.digits >= 1 && cfg.stack > cfg.lim.depth
    ensures var t := Repeating(cfg.lim.depth - 1);
            && WellShaped(t) && ValueDepth(Meaning(t)) == 2
            && ParsedLine(Source(t), cfg.lim) == None && PythonDecoded(Source(t), cfg) == Some(Meaning(t))
            && Reply(Source(t), cfg.lim, fmt) == TOO_LONG_REPLY
            && PythonReply(Source(t), cfg, fmt) == Dump(BuildResponse(Meaning(t)), fmt)
            && PythonReply(Source(t), cfg, fmt) != Reply(Source(t), cfg.lim, fmt)
  {
    var t := Repeating(cfg.lim.depth - 1);
    RepeatingDepth(cfg.lim.depth - 1, cfg.lim.digits);
    RepeatingText(cfg.lim.depth - 1);
    RepeatingMeaning(cfg.lim.depth - 1);
    AsciiPassesUnchanged(Source(t));
    assert [] + (Source(t) + []) == Source(t);
    DerivedDocumentIsRead(Source(t), [], t, [], cfg.lim);
    DerivedDocumentIsRead(Source(t), [], t, [], Limits(cfg.stack, cfg.lim.digits));
    assert Derives(Source(t), [], t, []) && HidesDepth(Source(t), cfg);
    RepliesAgree(Source(t), cfg, fmt);
    TooLongReplyIsInvalidJson(fmt);
  }
}
