/** The nesting limit, measured on the value by the Python side
    (simulator/simulator.py:246-262, 280-296) and on the syntax by the native parser. */
module Nesting {
  import opened Options
  import opened Bytes
  import opened Utf8
  import opened Json
  import opened Grammar
  import opened Reader
  import opened Soundness

  /** How deep a value nests; a scalar counts as one level. */
  function ValueDepth(v: Value): (d: nat)
    ensures d >= 1
  {
    match v
    case Array(items) => 1 + Deepest(items)
    case Object(members) => 1 + DeepestMember(members)
    case _ => 1
  }

  function Deepest(items: seq<Value>): nat {
    if items == [] then 0 else Max(ValueDepth(items[0]), Deepest(items[1..]))
  }

  function DeepestMember(members: seq<(bytes, Value)>): nat {
    if members == [] then 0 else Max(MemberDepth(members[0]), DeepestMember(members[1..]))
  }

  function MemberDepth(m: (bytes, Value)): nat { ValueDepth(m.1) }

  // ----- The worklist

  /** The values an array or object holds, in order. */
  function Children(v: Value): seq<Value> {
    match v
    case Array(items) => items
    case Object(members) => seq(|members|, i requires 0 <= i < |members| => members[i].1)
    case _ => []
  }

  function Size(v: Value): (n: nat)
    ensures n >= 1
  {
    match v
    case Array(items) => 1 + Sizes(items)
    case Object(members) => 1 + MemberSizes(members)
    case _ => 1
  }

  function Sizes(items: seq<Value>): nat {
    if items == [] then 0 else Size(items[0]) + Sizes(items[1..])
  }

  function MemberSizes(members: seq<(bytes, Value)>): nat {
    if members == [] then 0 else MemberSize(members[0]) + MemberSizes(members[1..])
  }

  function MemberSize(m: (bytes, Value)): nat { Size(m.1) }

  lemma {:induction false} MembersAsItems(members: seq<(bytes, Value)>)
    ensures var items := Children(Object(members));
            MemberSizes(members) == Sizes(items) && DeepestMember(members) == Deepest(items)
  {
    if members != [] {
      MembersAsItems(members[1..]);
      assert Children(Object(members))[1..] == Children(Object(members[1..]));
    }
  }

  lemma ChildrenMeasure(v: Value)
    ensures Size(v) == 1 + Sizes(Children(v)) && ValueDepth(v) == 1 + Deepest(Children(v))
  {
    if v.Object? { MembersAsItems(v.members); }
  }

  /** The work left on the stack. */
  function Work(stack: seq<(Value, nat)>): nat {
    if stack == [] then 0 else Work(stack[..|stack| - 1]) + Size(stack[|stack| - 1].0)
  }

  /** Whether some pending value reaches below the limit from where it stands. */
  ghost predicate TooDeep(stack: seq<(Value, nat)>, limit: int) {
    exists i | 0 <= i < |stack| :: Exceeds(stack[i], limit)
  }

  predicate Exceeds(entry: (Value, nat), limit: int) { entry.1 - 1 + ValueDepth(entry.0) > limit }

  function AtDepth(items: seq<Value>, depth: nat): (r: seq<(Value, nat)>)
    ensures |r| == |items| && forall i | 0 <= i < |items| :: r[i] == (items[i], depth)
  {
    seq(|items|, i requires 0 <= i < |items| => (items[i], depth))
  }

  lemma {:induction false} WorkOfMore(stack: seq<(Value, nat)>, items: seq<Value>, depth: nat)
    ensures Work(stack + AtDepth(items, depth)) == Work(stack) + Sizes(items)
    decreases |items|
  {
    if items == [] {
      assert stack + AtDepth(items, depth) == stack;
    } else {
      var next := stack + [(items[0], depth)];
      assert next[..|next| - 1] == stack;
      WorkOfMore(next, items[1..], depth);
      assert stack + AtDepth(items, depth) == next + AtDepth(items[1..], depth);
    }
  }

  lemma {:induction false} DeepestIsReached(items: seq<Value>, d: int)
    requires d >= 0
    ensures Deepest(items) > d <==> exists i | 0 <= i < |items| :: ValueDepth(items[i]) > d
  {
    if items != [] {
      DeepestIsReached(items[1..], d);
      if Deepest(items[1..]) > d {
        var i :| 0 <= i < |items[1..]| && ValueDepth(items[1..][i]) > d;
        assert ValueDepth(items[i + 1]) > d;
      }
      forall i | 0 <= i < |items| && ValueDepth(items[i]) > d
        ensures Deepest(items) > d
      {
        if i > 0 { assert items[1..][i - 1] == items[i]; }
      }
    }
  }

  /** A value within the limit is replaced on the stack by what it holds. */
  lemma PopOne(stack: seq<(Value, nat)>, v: Value, depth: nat, limit: int)
    requires 1 <= depth <= limit
    ensures TooDeep(stack + [(v, depth)], limit) == TooDeep(stack + AtDepth(Children(v), depth + 1), limit)
  {
    var items := Children(v);
    var before, after := stack + [(v, depth)], stack + AtDepth(items, depth + 1);
    ChildrenMeasure(v);
    DeepestIsReached(items, limit - depth);
    if TooDeep(before, limit) {
      var i :| 0 <= i < |before| && Exceeds(before[i], limit);
      if i < |stack| {
        assert after[i] == before[i];
      } else {
        var j :| 0 <= j < |items| && ValueDepth(items[j]) > limit - depth;
        assert after[|stack| + j] == (items[j], depth + 1);
      }
    }
    if TooDeep(after, limit) {
      var i :| 0 <= i < |after| && Exceeds(after[i], limit);
      if i < |stack| {
        assert before[i] == after[i];
      } else {
        assert ValueDepth(items[i - |stack|]) > limit - depth;
        assert before[|stack|] == (v, depth);
      }
    }
  }

  /** The worklist ends, and answers whether the value nests deeper than the limit. */
  method ExceedsNestingLimit(value: Value, limit: int) returns (r: bool)
    ensures r == (ValueDepth(value) > limit)
  {
    var stack: seq<(Value, nat)> := [(value, 1)];
    assert TooDeep(stack, limit) == (ValueDepth(value) > limit) by {
      assert Exceeds(stack[0], limit) == (ValueDepth(value) > limit);
    }
    while stack != []
      invariant TooDeep(stack, limit) == (ValueDepth(value) > limit)
      invariant forall e | e in stack :: e.1 >= 1
      decreases Work(stack)
    {
      var (current, depth) := stack[|stack| - 1];
      var rest := stack[..|stack| - 1];
      assert stack == rest + [(current, depth)];
      if depth > limit {
        assert Exceeds(stack[|stack| - 1], limit);
        return true;
      }
      PopOne(rest, current, depth, limit);
      WorkOfMore(rest, Children(current), depth + 1);
      ChildrenMeasure(current);
      stack := rest + AtDepth(Children(current), depth + 1);
    }
    return false;
  }

  // ----- Syntax against value

  /** No object of the document repeats a key. */
  predicate NoRepeats(t: Tree)
    requires WellShaped(t)
  {
    match t
    case Arr(_, elements) => ElementsNoRepeats(elements)
    case Obj(_, members) => MembersNoRepeats(members)
    case _ => true
  }

  predicate ElementsNoRepeats(es: Elements)
    requires ElementsShaped(es)
  {
    es.Element? ==> NoRepeats(es.value) && ElementsNoRepeats(es.more)
  }

  predicate MembersNoRepeats(ms: Members)
    requires MembersShaped(ms)
  {
    ms.Member? ==> NoRepeats(ms.value) && !HasKey(ms.more, EncodeAll(Points(ms.key))) && MembersNoRepeats(ms.more)
  }

  predicate HasKey(ms: Members, key: bytes)
    requires MembersShaped(ms)
  {
    ms.Member? && (EncodeAll(Points(ms.key)) == key || HasKey(ms.more, key))
  }

  /** Dropping repeated keys can only flatten a document, and flattens none that has none. */
  lemma {:induction false} DepthOfMeaning(t: Tree)
    requires WellShaped(t)
    ensures ValueDepth(Meaning(t)) <= Depth(t)
    ensures NoRepeats(t) ==> ValueDepth(Meaning(t)) == Depth(t)
    decreases t
  {
    match t
    case Arr(_, elements) => DepthOfElements(elements);
    case Obj(_, members) => DepthOfMembers(members, []);
    case _ =>
  }

  lemma {:induction false} DepthOfElements(es: Elements)
    requires ElementsShaped(es)
    ensures Deepest(ElementsMeaning(es)) <= ElementsDepth(es)
    ensures ElementsNoRepeats(es) ==> Deepest(ElementsMeaning(es)) == ElementsDepth(es)
    decreases es
  {
    if es.Element? {
      DepthOfMeaning(es.value);
      DepthOfElements(es.more);
      Front(Meaning(es.value), ElementsMeaning(es.more));
    }
  }

  ghost predicate Fresh(ms: Members, members: seq<(bytes, Value)>)
    requires MembersShaped(ms)
  {
    forall i | 0 <= i < |members| :: !HasKey(ms, members[i].0)
  }

  lemma {:induction false} DepthOfMembers(ms: Members, sofar: seq<(bytes, Value)>)
    requires MembersShaped(ms)
    ensures DeepestMember(MembersMeaning(ms, sofar)) <= Max(DeepestMember(sofar), MembersDepth(ms))
    ensures MembersNoRepeats(ms) && Fresh(ms, sofar) ==>
              DeepestMember(MembersMeaning(ms, sofar)) == Max(DeepestMember(sofar), MembersDepth(ms))
    decreases ms
  {
    if ms.Member? {
      var key, v := EncodeAll(Points(ms.key)), Meaning(ms.value);
      var now := Upsert(sofar, key, v);
      DepthOfMeaning(ms.value);
      UpsertDepth(sofar, key, v);
      DepthOfMembers(ms.more, now);
      if MembersNoRepeats(ms) && Fresh(ms, sofar) { StaysFresh(ms, sofar); }
    }
  }

  /** A key that is not repeated is appended, and the later ones stay new. */
  lemma StaysFresh(ms: Members, sofar: seq<(bytes, Value)>)
    requires MembersShaped(ms) && ms.Member? && MembersNoRepeats(ms) && Fresh(ms, sofar)
    ensures var key := EncodeAll(Points(ms.key));
            IndexOf(sofar, key) == |sofar| && Fresh(ms.more, Upsert(sofar, key, Meaning(ms.value)))
  {
    assert IndexOf(sofar, EncodeAll(Points(ms.key))) == |sofar|;
  }

  lemma UpsertDepth(members: seq<(bytes, Value)>, key: bytes, v: Value)
    ensures DeepestMember(Upsert(members, key, v)) <= Max(DeepestMember(members), ValueDepth(v))
    ensures IndexOf(members, key) == |members|
            ==> DeepestMember(Upsert(members, key, v)) == Max(DeepestMember(members), ValueDepth(v))
  {
    var i := IndexOf(members, key);
    if i < |members| { ReplacedDepth(members, i, (key, v)); } else { AppendedDepth(members, (key, v)); }
  }

  lemma {:induction false} AppendedDepth(members: seq<(bytes, Value)>, m: (bytes, Value))
    ensures DeepestMember(members + [m]) == Max(DeepestMember(members), MemberDepth(m))
  {
    if members == [] {
      assert members + [m] == [m];
    } else {
      AppendedDepth(members[1..], m);
      assert (members + [m])[1..] == members[1..] + [m];
    }
  }

  lemma {:induction false} ReplacedDepth(members: seq<(bytes, Value)>, i: nat, m: (bytes, Value))
    requires i < |members|
    ensures DeepestMember(members[i := m]) <= Max(DeepestMember(members), MemberDepth(m))
  {
    if i == 0 {
      assert members[i := m][1..] == members[1..];
    } else {
      ReplacedDepth(members[1..], i - 1, m);
      assert members[i := m][1..] == members[1..][i - 1 := m];
    }
  }

  /** What the native parser accepts, the Python check lets pass. */
  lemma AcceptedPassesCheck(text: bytes, lim: Limits)
    requires WellFormed(text) && ReadDocument(text, lim).Some?
    ensures ValueDepth(ReadDocument(text, lim).value) <= lim.depth
  {
    var lead, t, trail := ReadDocumentIsDerived(text, lim);
    DepthOfMeaning(t);
  }

  /** On a document of the grammar with short integers, the parser's verdict is the depth of
      the syntax and the Python verdict the depth of the value. So they differ exactly when
      dropping repeated keys brings the value within the limit, and never without repeats. */
  lemma VerdictsCompared(text: bytes, lead: bytes, t: Tree, trail: bytes, lim: Limits)
    requires WellFormed(text) && Derives(text, lead, t, trail) && DigitsWithin(t, lim.digits)
    ensures ReadDocument(text, lim).Some? <==> Depth(t) <= lim.depth
    ensures (ReadDocument(text, lim).Some? <==> ValueDepth(Meaning(t)) <= lim.depth)
       <==> !(ValueDepth(Meaning(t)) <= lim.depth < Depth(t))
    ensures NoRepeats(t) ==> (ReadDocument(text, lim).Some? <==> ValueDepth(Meaning(t)) <= lim.depth)
  {
    DepthOfMeaning(t);
    DerivedDocumentIsRead(text, lead, t, trail, lim);
  }
}
