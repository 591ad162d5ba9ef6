/** What the recursive-descent parser of cpp/src/json.cpp:22-428 does with the unread part
    of its text, function by function, as a value. `Parser` is proved to compute it. */
module Reader {
  import opened Options
  import opened Bytes
  import opened Utf8
  import opened Json
  import opened Grammar

  /** The protocol's bounds: nesting levels and digits of an integer literal. */
  datatype Limits = Limits(depth: nat, digits: nat)

  /** A failure, or a result together with what is left to read. */
  datatype Parsed<+T> = Fail | Ok(value: T, rest: bytes)

  function SkipSpace(s: bytes): (r: bytes)
    ensures |r| <= |s|
    ensures r == [] || !IsSpace(r[0])
  {
    if s != [] && IsSpace(s[0]) then SkipSpace(s[1..]) else s
  }

  function ReadWord(s: bytes, v: Value): (r: Parsed<Value>)
    requires IsWord(v)
    ensures r.Ok? ==> |r.rest| < |s|
  {
    if WordText(v) <= s then Ok(v, s[|WordText(v)|..]) else Fail
  }

  function ReadValue(s: bytes, depth: nat, lim: Limits): (r: Parsed<Value>)
    ensures r.Ok? ==> |r.rest| < |s|
    decreases |s|, 2
  {
    if depth > lim.depth then Fail
    else
      var t := SkipSpace(s);
      if t == [] then Fail
      else if t[0] == LBRACE then ReadObject(t, depth, lim)
      else if t[0] == LBRACKET then ReadArray(t, depth, lim)
      else ReadScalar(t, lim)
  }

  /** The cases of the value dispatch that do not nest. */
  function ReadScalar(t: bytes, lim: Limits): (r: Parsed<Value>)
    requires t != []
    ensures r.Ok? ==> |r.rest| < |t|
  {
    if t[0] == QUOTE then
      match ReadString(t)
      case Fail => Fail
      case Ok(text, rest) => Ok(Text(text), rest)
    else
      match ExpectedWord(t)
      case Some(v) => ReadWord(t, v)
      case None => ReadNumber(t, lim)
  }

  /** The word the first byte commits the parser to. A minus sign commits it to nothing
      unless the whole of `-Infinity` is there. */
  function ExpectedWord(t: bytes): (v: Option<Value>)
    requires t != []
    ensures v.Some? ==> IsWord(v.value)
  {
    match t[0]
    case 0x74 => Some(Bool(true))
    case 0x66 => Some(Bool(false))
    case 0x6E => Some(Null)
    case 0x4E => Some(Double(NaN))
    case 0x49 => Some(Double(Infinity))
    case 0x2D => if NEG_INFINITY_WORD <= t then Some(Double(NegInfinity)) else None
    case _ => None
  }

  function ReadArray(t: bytes, depth: nat, lim: Limits): (r: Parsed<Value>)
    ensures r.Ok? ==> |r.rest| < |t|
    decreases |t|, 1
  {
    if t == [] || t[0] != LBRACKET then Fail
    else
      var u := SkipSpace(t[1..]);
      if u != [] && u[0] == RBRACKET then Ok(Array([]), u[1..])
      else ReadElements(u, depth, lim, [])
  }

  /** The loop of `parse_array`, with the elements pushed so far. */
  function ReadElements(s: bytes, depth: nat, lim: Limits, sofar: seq<Value>): (r: Parsed<Value>)
    ensures r.Ok? ==> |r.rest| < |s|
    decreases |s|, 4
  {
    match ReadElement(s, depth, lim)
    case Fail => Fail
    case Ok(e, rest) =>
      if e.more then ReadElements(rest, depth, lim, sofar + [e.value]) else Ok(Array(sofar + [e.value]), rest)
  }

  /** One turn of that loop: a value, and whether a comma or the bracket followed. */
  function ReadElement(s: bytes, depth: nat, lim: Limits): (r: Parsed<OneElement>)
    ensures r.Ok? ==> |r.rest| < |s|
    decreases |s|, 3
  {
    match ReadValue(s, depth + 1, lim)
    case Fail => Fail
    case Ok(v, rest) =>
      match ReadSeparator(rest, RBRACKET)
      case Fail => Fail
      case Ok(more, after) => Ok(OneElement(v, more), after)
  }

  datatype OneElement = OneElement(value: Value, more: bool)

  datatype OneMember = OneMember(key: bytes, value: Value, more: bool)

  /** A comma, or the closing byte of the container. */
  function ReadSeparator(s: bytes, close: byte): (r: Parsed<bool>)
    ensures r.Ok? ==> |r.rest| < |s|
  {
    var u := SkipSpace(s);
    if u != [] && u[0] == COMMA then Ok(true, u[1..])
    else if u != [] && u[0] == close then Ok(false, u[1..])
    else Fail
  }

  function ReadObject(t: bytes, depth: nat, lim: Limits): (r: Parsed<Value>)
    ensures r.Ok? ==> |r.rest| < |t|
    decreases |t|, 1
  {
    if t == [] || t[0] != LBRACE then Fail
    else
      var u := SkipSpace(t[1..]);
      if u != [] && u[0] == RBRACE then Ok(Object([]), u[1..])
      else ReadMembers(u, depth, lim, [])
  }

  /** The loop of `parse_object`, with the members gathered so far. */
  function ReadMembers(s: bytes, depth: nat, lim: Limits, sofar: seq<(bytes, Value)>): (r: Parsed<Value>)
    ensures r.Ok? ==> |r.rest| < |s|
    decreases |s|, 4
  {
    match ReadMember(s, depth, lim)
    case Fail => Fail
    case Ok(m, rest) =>
      var now := Upsert(sofar, m.key, m.value);
      if m.more then ReadMembers(rest, depth, lim, now) else Ok(Object(now), rest)
  }

  /** One turn of that loop. */
  function ReadMember(s: bytes, depth: nat, lim: Limits): (r: Parsed<OneMember>)
    ensures r.Ok? ==> |r.rest| < |s|
    decreases |s|, 3
  {
    match ReadKey(s)
    case Fail => Fail
    case Ok(key, afterKey) =>
      match ReadValue(afterKey, depth + 1, lim)
      case Fail => Fail
      case Ok(v, rest) =>
        match ReadSeparator(rest, RBRACE)
        case Fail => Fail
        case Ok(more, after) => Ok(OneMember(key, v, more), after)
  }

  /** A member's key and its colon. */
  function ReadKey(s: bytes): (r: Parsed<bytes>)
    ensures r.Ok? ==> |r.rest| < |s|
  {
    match ReadString(SkipSpace(s))
    case Fail => Fail
    case Ok(key, rest) =>
      var u := SkipSpace(rest);
      if u != [] && u[0] == COLON then Ok(key, u[1..]) else Fail
  }

  function ReadString(s: bytes): (r: Parsed<bytes>)
    ensures r.Ok? ==> |r.rest| < |s|
  {
    if s == [] || s[0] != QUOTE then Fail else ReadBody(s[1..], [])
  }

  /** The four hexadecimal digits at the front of `s`. */
  function Hex4(s: bytes): (r: Option<nat>)
    ensures r.Some? ==> |s| >= 4 && r.value < 0x10000
  {
    if |s| < 4 || !AllHex(s[..4]) then None else Hexadecimal4(s[..4]); Some(Hexadecimal(s[..4]))
  }

  /** What one turn of `parse_string`'s loop does with the unread text: give up, meet the
      closing quote, or push some bytes and move on. */
  datatype Step = Reject | Close | Push(piece: bytes, length: nat)

  function BodyStep(s: bytes): (r: Step)
    ensures r.Close? ==> s != []
    ensures r.Push? ==> 0 < r.length <= |s|
  {
    if s == [] then Reject
    else if s[0] == QUOTE then Close
    else if s[0] != BACKSLASH then (if s[0] < 0x20 then Reject else Push([s[0]], 1))
    else if |s| == 1 then Reject
    else if s[1] == 0x75 then UnicodeStep(s[2..])
    else
      match Escaped(s[1])
      case None => Reject
      case Some(b) => Push([b], 2)
  }

  /** The turn for `\u`, from the first digit on. A high surrogate takes an escaped low one
      with it; otherwise the cursor is rewound to the end of its own digits. */
  function UnicodeStep(s: bytes): (r: Step)
    ensures r.Push? ==> 0 < r.length <= |s| + 2
  {
    match Hex4(s)
    case None => Reject
    case Some(code) =>
      var low := LowAfter(s[4..]);
      if High(code) && low.Some? then Push(Encode(Join(code, low.value)), 12) else Push(Encode(code), 6)
  }

  /** The loop of `parse_string`, with the bytes pushed so far. */
  function ReadBody(s: bytes, out: bytes): (r: Parsed<bytes>)
    ensures r.Ok? ==> |r.rest| < |s|
    decreases |s|
  {
    match BodyStep(s)
    case Reject => Fail
    case Close => Ok(out, s[1..])
    case Push(piece, length) => ReadBody(s[length..], out + piece)
  }

  /** The low surrogate of the escape at the front of `s`, when there is one. */
  function LowAfter(s: bytes): (r: Option<nat>)
    ensures r.Some? ==> |s| >= 6 && Low(r.value)
  {
    if |s| >= 2 && s[0] == BACKSLASH && s[1] == 0x75 then
      match Hex4(s[2..])
      case None => None
      case Some(low) => if Low(low) then Some(low) else None
    else None
  }

  /** How many digits stand at the front of `s`. */
  function DigitRun(s: bytes): (n: nat)
    ensures n <= |s|
  {
    if s != [] && IsDigit(s[0]) then 1 + DigitRun(s[1..]) else 0
  }

  /** The whole part at the front of `s`: its length, or 0 when the scanner rejects it. */
  function WholeRun(s: bytes): (n: nat)
    ensures n <= |s|
  {
    if s == [] then 0
    else if s[0] == ZERO then (if |s| > 1 && IsDigit(s[1]) then 0 else 1)
    else DigitRun(s)
  }

  /** The length of an optional fraction; None when a point has no digits. */
  function FractionRun(s: bytes): (n: Option<nat>)
    ensures n.Some? ==> n.value <= |s|
  {
    if s != [] && s[0] == DOT then
      var d := DigitRun(s[1..]);
      if d == 0 then None else Some(1 + d)
    else Some(0)
  }

  /** The length of an optional exponent; None when its mark has no digits. */
  function ExponentRun(s: bytes): (n: Option<nat>)
    ensures n.Some? ==> n.value <= |s|
  {
    if s != [] && (s[0] == 0x65 || s[0] == 0x45) then
      var t := s[1..];
      var sign := SignRun(t);
      var d := DigitRun(t[sign..]);
      if d == 0 then None else Some(1 + sign + d)
    else Some(0)
  }

  function SignRun(s: bytes): (n: nat)
    ensures n <= |s|
  {
    if s != [] && (s[0] == PLUS || s[0] == MINUS) then 1 else 0
  }

  function MinusRun(s: bytes): (n: nat)
    ensures n <= |s|
  {
    if s != [] && s[0] == MINUS then 1 else 0
  }

  /** The extent of the parts of a number. */
  datatype Extent = NoNumber | Extent(minus: nat, whole: nat, fraction: nat, exponent: nat)

  function Measure(s: bytes): (x: Extent)
    ensures x.Extent? ==> x.whole > 0 && x.minus + x.whole + x.fraction + x.exponent <= |s|
  {
    var m := MinusRun(s);
    var afterMinus := s[m..];
    var w := WholeRun(afterMinus);
    if w == 0 then NoNumber
    else
      var afterWhole := afterMinus[w..];
      match FractionRun(afterWhole)
      case None => NoNumber
      case Some(f) =>
        match ExponentRun(afterWhole[f..])
        case None => NoNumber
        case Some(e) => Extent(m, w, f, e)
  }

  function ReadNumber(s: bytes, lim: Limits): (r: Parsed<Value>)
    ensures r.Ok? ==> |r.rest| < |s|
  {
    match Measure(s)
    case NoNumber => Fail
    case Extent(m, w, f, e) =>
      var n := m + w + f + e;
      if f + e > 0 then Ok(Double(Finite(s[..n])), s[n..])
      else if w > lim.digits then Fail
      else Ok(IntegerValue(s[..n]), s[n..])
  }

  /** `std::stoll` on a token of the integer grammar: the number when it is in range, and
      the token itself when `out_of_range` is thrown. */
  function IntegerValue(token: bytes): Value {
    var minus := token != [] && token[0] == MINUS;
    var digits := if minus then token[1..] else token;
    if AllDigits(digits) then IntegerMeaning(minus, digits) else Raw(token)
  }

  function ReadDocument(text: bytes, lim: Limits): Option<Value> {
    match ReadValue(SkipSpace(text), 1, lim)
    case Fail => None
    case Ok(v, rest) => if SkipSpace(rest) == [] then Some(v) else None
  }
}
