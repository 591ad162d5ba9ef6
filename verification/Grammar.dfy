/** The documents the protocol accepts, as syntax trees: sections 2 to 7 of RFC 8259 plus
    the words NaN, Infinity and -Infinity. `Source` is the text a tree stands for and
    `Meaning` the value it denotes; neither mentions the parser. */
module Grammar {
  import opened Options
  import opened Bytes
  import opened Utf8
  import opened Json

  /** One character of a string: written plainly, as a two-letter escape, or as `\uXXXX`. */
  datatype Item = Plain(c: codepoint) | Escape(letter: byte) | Unicode(hex: bytes)

  datatype Exponent = NoExponent | Exponent(mark: byte, sign: bytes, digits: bytes)

  datatype Tree =
    | Word(value: Value)
    | Number(minus: bool, whole: bytes, fraction: bytes, exponent: Exponent)
    | Str(items: seq<Item>)
    | Arr(inner: bytes, elements: Elements)
    | Obj(inner: bytes, members: Members)

  datatype Elements =
    | NoElements
    | Element(before: bytes, value: Tree, after: bytes, more: Elements)

  datatype Members =
    | NoMembers
    | Member(before: bytes, key: seq<Item>, beforeColon: bytes, afterColon: bytes, value: Tree, after: bytes,
             more: Members)

  // ----- The text of a tree

  predicate IsSpace(b: byte) { b == SPACE || b == TAB || b == LF || b == CR }

  predicate AllSpace(s: bytes) { forall i | 0 <= i < |s| :: IsSpace(s[i]) }

  const NULL_WORD: bytes := [0x6E, 0x75, 0x6C, 0x6C]
  const TRUE_WORD: bytes := [0x74, 0x72, 0x75, 0x65]
  const FALSE_WORD: bytes := [0x66, 0x61, 0x6C, 0x73, 0x65]
  const NAN_WORD: bytes := [0x4E, 0x61, 0x4E]
  const INFINITY_WORD: bytes := [0x49, 0x6E, 0x66, 0x69, 0x6E, 0x69, 0x74, 0x79]
  const NEG_INFINITY_WORD: bytes := [MINUS] + INFINITY_WORD

  /** The values that are written as a single word. */
  predicate IsWord(v: Value) { v.Null? || v.Bool? || (v.Double? && !v.d.Finite?) }

  function WordText(v: Value): bytes
    requires IsWord(v)
  {
    match v
    case Null => NULL_WORD
    case Bool(flag) => if flag then TRUE_WORD else FALSE_WORD
    case Double(d) => if d.NaN? then NAN_WORD else if d.Infinity? then INFINITY_WORD else NEG_INFINITY_WORD
  }

  function ItemText(i: Item): bytes {
    match i
    case Plain(c) => Encode(c)
    case Escape(letter) => [BACKSLASH, letter]
    case Unicode(hex) => [BACKSLASH, 0x75] + hex
  }

  function ItemsText(items: seq<Item>): bytes {
    if items == [] then [] else ItemText(items[0]) + ItemsText(items[1..])
  }

  function StringText(items: seq<Item>): bytes { [QUOTE] + (ItemsText(items) + [QUOTE]) }

  function MinusText(minus: bool): bytes { if minus then [MINUS] else [] }

  function FractionText(fraction: bytes): bytes { if fraction == [] then [] else [DOT] + fraction }

  function ExponentText(e: Exponent): bytes {
    match e
    case NoExponent => []
    case Exponent(mark, sign, digits) => [mark] + (sign + digits)
  }

  function NumberText(minus: bool, whole: bytes, fraction: bytes, exponent: Exponent): bytes {
    MinusText(minus) + (whole + (FractionText(fraction) + ExponentText(exponent)))
  }

  function Source(t: Tree): bytes
    requires WellShaped(t)
  {
    match t
    case Word(v) => WordText(v)
    case Number(minus, whole, fraction, exponent) => NumberText(minus, whole, fraction, exponent)
    case Str(items) => StringText(items)
    case Arr(inner, elements) => [LBRACKET] + (inner + (ElementsText(elements) + [RBRACKET]))
    case Obj(inner, members) => [LBRACE] + (inner + (MembersText(members) + [RBRACE]))
  }

  function ElementsText(es: Elements): bytes
    requires ElementsShaped(es)
  {
    match es
    case NoElements => []
    case Element(before, value, after, more) =>
      before + (Source(value) + (after + if more.NoElements? then [] else [COMMA] + ElementsText(more)))
  }

  function MembersText(ms: Members): bytes
    requires MembersShaped(ms)
  {
    match ms
    case NoMembers => []
    case Member(before, key, beforeColon, afterColon, value, after, more) =>
      before + (StringText(key) + (beforeColon + ([COLON] + (afterColon + (Source(value) + (after +
        if more.NoMembers? then [] else [COMMA] + MembersText(more)))))))
  }

  // ----- Which trees are in the language

  /** The letters after a backslash, other than `u`, and what they stand for. */
  function Escaped(letter: byte): Option<byte> {
    match letter
    case 0x22 => Some(QUOTE)
    case 0x5C => Some(BACKSLASH)
    case 0x2F => Some(SLASH)
    case 0x62 => Some(0x08)
    case 0x66 => Some(0x0C)
    case 0x6E => Some(LF)
    case 0x72 => Some(CR)
    case 0x74 => Some(TAB)
    case _ => None
  }

  predicate ItemShaped(i: Item) {
    match i
    case Plain(c) => Scalar(c) && c >= 0x20 && c != QUOTE && c != BACKSLASH
    case Escape(letter) => Escaped(letter).Some?
    case Unicode(hex) => |hex| == 4 && AllHex(hex)
  }

  predicate ItemsShaped(items: seq<Item>) { forall i | 0 <= i < |items| :: ItemShaped(items[i]) }

  predicate WholeShaped(whole: bytes) {
    whole != [] && AllDigits(whole) && (whole[0] == ZERO ==> |whole| == 1)
  }

  predicate ExponentShaped(e: Exponent) {
    e.NoExponent? || (
      && (e.mark == 0x65 || e.mark == 0x45)
      && (e.sign == [] || e.sign == [PLUS] || e.sign == [MINUS])
      && e.digits != [] && AllDigits(e.digits))
  }

  predicate WellShaped(t: Tree) {
    match t
    case Word(v) => IsWord(v)
    case Number(minus, whole, fraction, exponent) =>
      WholeShaped(whole) && AllDigits(fraction) && ExponentShaped(exponent)
    case Str(items) => ItemsShaped(items)
    case Arr(inner, elements) => AllSpace(inner) && ElementsShaped(elements) && (elements.NoElements? || inner == [])
    case Obj(inner, members) => AllSpace(inner) && MembersShaped(members) && (members.NoMembers? || inner == [])
  }

  predicate ElementsShaped(es: Elements) {
    match es
    case NoElements => true
    case Element(before, value, after, more) =>
      AllSpace(before) && WellShaped(value) && AllSpace(after) && ElementsShaped(more)
  }

  predicate MembersShaped(ms: Members) {
    match ms
    case NoMembers => true
    case Member(before, key, beforeColon, afterColon, value, after, more) =>
      && AllSpace(before) && ItemsShaped(key) && AllSpace(beforeColon) && AllSpace(afterColon)
      && WellShaped(value) && AllSpace(after) && MembersShaped(more)
  }

  /** How deep the syntax nests; a scalar counts as one level. */
  function Depth(t: Tree): (d: nat)
    ensures d >= 1
  {
    match t
    case Arr(_, elements) => 1 + ElementsDepth(elements)
    case Obj(_, members) => 1 + MembersDepth(members)
    case _ => 1
  }

  function ElementsDepth(es: Elements): nat {
    match es
    case NoElements => 0
    case Element(_, value, _, more) => Max(Depth(value), ElementsDepth(more))
  }

  function MembersDepth(ms: Members): nat {
    match ms
    case NoMembers => 0
    case Member(_, _, _, _, value, _, more) => Max(Depth(value), MembersDepth(more))
  }

  function Max(a: nat, b: nat): nat { if a < b then b else a }

  /** No integer literal has more than `most` digits. */
  predicate DigitsWithin(t: Tree, most: nat) {
    match t
    case Number(_, whole, fraction, exponent) => fraction == [] && exponent.NoExponent? ==> |whole| <= most
    case Arr(_, elements) => ElementsDigitsWithin(elements, most)
    case Obj(_, members) => MembersDigitsWithin(members, most)
    case _ => true
  }

  predicate ElementsDigitsWithin(es: Elements, most: nat) {
    match es
    case NoElements => true
    case Element(_, value, _, more) => DigitsWithin(value, most) && ElementsDigitsWithin(more, most)
  }

  predicate MembersDigitsWithin(ms: Members, most: nat) {
    match ms
    case NoMembers => true
    case Member(_, _, _, _, value, _, more) => DigitsWithin(value, most) && MembersDigitsWithin(more, most)
  }

  // ----- What a tree means

  /** The code point of a surrogate pair. */
  function Join(high: nat, low: nat): codepoint
    requires High(high) && Low(low)
  {
    0x10000 + (high - 0xD800) * 0x400 + (low - 0xDC00)
  }

  predicate IsUnicodeLow(i: Item) { i.Unicode? && |i.hex| == 4 && AllHex(i.hex) && Low(Hexadecimal(i.hex)) }

  /** The code points of a string: an escaped high surrogate directly followed by an escaped
      low one is one character, and an unpaired surrogate stands for itself. */
  function Points(items: seq<Item>): seq<codepoint>
    requires ItemsShaped(items)
  {
    if items == [] then []
    else
      var rest := items[1..];
      match items[0]
      case Plain(c) => [c] + Points(rest)
      case Escape(letter) => [Escaped(letter).value] + Points(rest)
      case Unicode(hex) =>
        var code := Hexadecimal(hex);
        Hexadecimal4(hex);
        if High(code) && rest != [] && IsUnicodeLow(rest[0]) then
          [Join(code, Hexadecimal(rest[0].hex))] + Points(rest[1..])
        else [code] + Points(rest)
  }

  /** An integer literal is an `int64_t` when it fits, and otherwise its own text. */
  function IntegerMeaning(minus: bool, whole: bytes): Value
    requires AllDigits(whole)
  {
    var n: int := if minus then -(Decimal(whole) as int) else Decimal(whole);
    if FitsInt64(n) then Int(n) else Raw(MinusText(minus) + whole)
  }

  function Meaning(t: Tree): Value
    requires WellShaped(t)
  {
    match t
    case Word(v) => v
    case Number(minus, whole, fraction, exponent) =>
      if fraction == [] && exponent.NoExponent? then IntegerMeaning(minus, whole)
      else Double(Finite(NumberText(minus, whole, fraction, exponent)))
    case Str(items) => Text(EncodeAll(Points(items)))
    case Arr(_, elements) => Array(ElementsMeaning(elements))
    case Obj(_, members) => Object(MembersMeaning(members, []))
  }

  function ElementsMeaning(es: Elements): seq<Value>
    requires ElementsShaped(es)
  {
    match es
    case NoElements => []
    case Element(_, value, _, more) => [Meaning(value)] + ElementsMeaning(more)
  }

  /** Members are taken in order over those already there, the last occurrence winning. */
  function MembersMeaning(ms: Members, sofar: seq<(bytes, Value)>): seq<(bytes, Value)>
    requires MembersShaped(ms)
  {
    match ms
    case NoMembers => sofar
    case Member(_, key, _, _, value, _, more) =>
      MembersMeaning(more, Upsert(sofar, EncodeAll(Points(key)), Meaning(value)))
  }
}
