/** The value model of cpp/include/dut/json.hpp and the library conversions it leans on. */
module Json {
  import opened Options
  import opened Bytes

  /** A binary64 value. Finite ones stay opaque: they are carried as the literal they were
      read from. */
  datatype Float = NaN | Infinity | NegInfinity | Finite(token: bytes)

  datatype Value =
    | Null
    | Bool(flag: bool)
    | Int(n: int)
    | Double(d: Float)
    | Text(s: bytes)
    | Array(items: seq<Value>)
    | Object(members: seq<(bytes, Value)>)
    | Raw(token: bytes)

  const INT64_MIN: int := -0x8000_0000_0000_0000
  const INT64_MAX: int := 0x7FFF_FFFF_FFFF_FFFF

  predicate FitsInt64(n: int) { INT64_MIN <= n <= INT64_MAX }

  /** The place of `key`, or the number of members when it is absent. */
  function IndexOf<T>(members: seq<(bytes, T)>, key: bytes): (i: nat)
    ensures i <= |members|
    ensures i < |members| ==> members[i].0 == key
    ensures forall j | 0 <= j < i :: members[j].0 != key
  {
    if members == [] || members[0].0 == key then 0
    else
      var i := IndexOf(members[1..], key);
      assert forall j | 0 < j <= i :: members[j] == members[1..][j - 1];
      1 + i
  }

  /** `Value::find`. */
  function Find(v: Value, key: bytes): Option<Value> {
    if !v.Object? then None
    else
      var i := IndexOf(v.members, key);
      if i < |v.members| then Some(v.members[i].1) else None
  }

  predicate Distinct<T>(members: seq<(bytes, T)>) {
    forall i, j | 0 <= i < j < |members| :: members[i].0 != members[j].0
  }

  /** A repeated key replaces the earlier value in place; a new one goes to the end. Every
      other member keeps its place. */
  function Upsert<T>(members: seq<(bytes, T)>, key: bytes, value: T): (r: seq<(bytes, T)>)
    ensures Distinct(members) ==> Distinct(r)
    ensures |members| <= |r| <= |members| + 1 && (|r| > |members| ==> r[|members|] == (key, value))
    ensures |r| == |members| <==> exists i | 0 <= i < |members| :: members[i].0 == key
    ensures Distinct(members) ==>
              forall i | 0 <= i < |members| :: r[i] == if members[i].0 == key then (key, value) else members[i]
  {
    var i := IndexOf(members, key);
    if i < |members| then members[i := (key, value)] else members + [(key, value)]
  }

  // ----- Number texts

  predicate IsDigit(b: byte) { ZERO <= b <= NINE }

  predicate AllDigits(s: bytes) { forall i | 0 <= i < |s| :: IsDigit(s[i]) }

  /** The number a run of decimal digits denotes. */
  function Decimal(s: bytes): (n: nat)
    requires AllDigits(s)
  {
    if s == [] then 0 else 10 * Decimal(s[..|s| - 1]) + (s[|s| - 1] - ZERO) as int
  }

  /** The shortest run of digits that denotes `n`. */
  function DecimalText(n: nat): (s: bytes)
    ensures s != [] && AllDigits(s) && Decimal(s) == n
    ensures s[0] == ZERO ==> n == 0 && |s| == 1
  {
    var last: byte := ZERO + n % 10;
    if n < 10 then [last]
    else
      var s := DecimalText(n / 10) + [last];
      assert s[..|s| - 1] == DecimalText(n / 10);
      s
  }

  /** What a stream prints for an `int64_t`. */
  function IntText(n: int): (s: bytes) {
    if n < 0 then [MINUS] + DecimalText(-n) else DecimalText(n)
  }

  predicate IsHex(b: byte) { IsDigit(b) || 0x61 <= b <= 0x66 || 0x41 <= b <= 0x46 }

  /** The digit a hexadecimal character stands for. */
  function HexDigit(b: byte): (d: nat)
    requires IsHex(b)
    ensures d < 16
  {
    if IsDigit(b) then b - ZERO else if b >= 0x61 then b - 0x61 + 10 else b - 0x41 + 10
  }

  predicate AllHex(s: bytes) { forall i | 0 <= i < |s| :: IsHex(s[i]) }

  function Hexadecimal(s: bytes): (n: nat)
    requires AllHex(s)
  {
    if s == [] then 0 else 16 * Hexadecimal(s[..|s| - 1]) + HexDigit(s[|s| - 1])
  }

  lemma Hexadecimal4(s: bytes)
    requires |s| == 4 && AllHex(s)
    ensures Hexadecimal(s) == 4096 * HexDigit(s[0]) + 256 * HexDigit(s[1]) + 16 * HexDigit(s[2]) + HexDigit(s[3])
    ensures Hexadecimal(s) < 0x10000
  {
    assert s[..3][..2] == s[..2] && s[..2][..1] == s[..1] && s[..1][..0] == [];
    assert Hexadecimal(s[..1]) == HexDigit(s[0]);
    assert Hexadecimal(s[..2]) == 16 * Hexadecimal(s[..1]) + HexDigit(s[1]);
    assert Hexadecimal(s[..3]) == 16 * Hexadecimal(s[..2]) + HexDigit(s[2]);
  }

  /** A lower-case hexadecimal digit. */
  function HexLetter(d: nat): (b: byte)
    requires d < 16
    ensures IsHex(b) && HexDigit(b) == d
  {
    if d < 10 then ZERO + d else 0x61 + d - 10
  }

  /** The four digits of `%04x`. */
  function HexText(c: nat): (s: bytes)
    requires c < 0x10000
    ensures |s| == 4 && AllHex(s) && Hexadecimal(s) == c
  {
    var high := c / 256;
    var low := c % 256;
    var s := [HexLetter(high / 16), HexLetter(high % 16), HexLetter(low / 16), HexLetter(low % 16)];
    assert AllHex(s);
    Hexadecimal4(s);
    s
  }
}
