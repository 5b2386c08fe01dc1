/** What picojson's parser accepts and returns, as functions of the text that is left to read.
    Every function here is the specification of the method of the same role in `JsonParser`. */
module JsonGrammar {
  import opened ByteStrings
  import opened JsonValue
  import Utf8

  const DEFAULT_MAX_DEPTHS: nat := 100

  /** The value read and the text behind it, or a syntax error. */
  datatype Parsed<+T> = Ok(value: T, rest: Bytes) | Fail

  predicate IsWs(c: byte) {
    c == ' ' || c == '\t' || c == '\n' || c == '\r'
  }

  function SkipWs(s: Bytes): (r: Bytes)
    ensures |r| <= |s|
    ensures r == [] || !IsWs(r[0])
  {
    if s != [] && IsWs(s[0]) then SkipWs(s[1..]) else s
  }

  predicate StartsWith(s: Bytes, c: byte) {
    s != [] && s[0] == c
  }

  function HexValue(c: byte): (r: Option<nat>)
    ensures r.Some? ==> r.value < 16
  {
    if '0' <= c <= '9' then Some(c as int - '0' as int)
    else if 'A' <= c <= 'F' then Some(c as int - 'A' as int + 10)
    else if 'a' <= c <= 'f' then Some(c as int - 'a' as int + 10)
    else None
  }

  /** How many numbers `read` hexadecimal digits can spell. */
  function HexCount(read: nat): nat {
    if read == 0 then 1 else 16 * HexCount(read - 1)
  }

  /** `_parse_quadhex` after `read` of the four digits have given `n`. */
  function QuadHexFrom(s: Bytes, read: nat, n: nat): (r: Parsed<nat>)
    requires read <= 4 && n < HexCount(read)
    ensures r.Ok? ==> r.value < 0x10000
    ensures r.Ok? ==> |s| == |r.rest| + 4 - read && r.rest == s[4 - read..]
    decreases 4 - read
  {
    assert HexCount(4) == 0x10000;
    if read == 4 then Ok(n, s)
    else if s == [] || HexValue(s[0]).None? then Fail
    else QuadHexFrom(s[1..], read + 1, n * 16 + HexValue(s[0]).value)
  }

  function QuadHex(s: Bytes): Parsed<nat> {
    QuadHexFrom(s, 0, 0)
  }

  lemma HexCountZero()
    ensures HexCount(0) == 1
  {
  }

  lemma QuadHexStep(s: Bytes, read: nat, n: nat)
    requires read <= 4 && n < HexCount(read)
    ensures read == 4 ==> QuadHexFrom(s, read, n) == Ok(n, s)
    ensures read < 4 && (s == [] || HexValue(s[0]).None?) ==> QuadHexFrom(s, read, n) == Fail
    ensures read < 4 && s != [] && HexValue(s[0]).Some? ==>
      var m := n * 16 + HexValue(s[0]).value;
      m < HexCount(read + 1) && QuadHexFrom(s, read, n) == QuadHexFrom(s[1..], read + 1, m)
  {
  }

  /** The escape that has to follow a high surrogate: `\u` and four digits. */
  function SecondUnit(t: Bytes): (r: Parsed<nat>)
    ensures r.Ok? ==> |r.rest| < |t|
  {
    if |t| < 2 || t[0] != '\\' || t[1] != 'u' then Fail else QuadHex(t[2..])
  }

  /** What follows the two characters `\u`: the bytes to append. */
  function Codepoint(s: Bytes): (r: Parsed<Bytes>)
    ensures r.Ok? ==> |r.rest| < |s|
  {
    match QuadHex(s)
    case Fail => Fail
    case Ok(u, t) =>
      if Utf8.IsLowSurrogate(u) then Fail
      else if Utf8.IsHighSurrogate(u) then
        match SecondUnit(t)
        case Fail => Fail
        case Ok(second, rest) =>
          if !Utf8.IsLowSurrogate(second) then Fail
          else Ok(Utf8.Encode(Utf8.Combine(u, second)), rest)
      else Ok(Utf8.Encode(u), t)
  }

  function Unescape(c: byte): Option<byte> {
    if c == '"' || c == '\\' || c == '/' then Some(c)
    else if c == 'b' then Some(8 as char)
    else if c == 'f' then Some(12 as char)
    else if c == 'n' then Some('\n')
    else if c == 'r' then Some('\r')
    else if c == 't' then Some('\t')
    else None
  }

  /** The part of `_parse_string` behind a backslash: the bytes to append. */
  function EscapeFrom(s: Bytes): (r: Parsed<Bytes>)
    ensures r.Ok? ==> |r.rest| < |s|
  {
    if s == [] then Fail
    else if s[0] == 'u' then Codepoint(s[1..])
    else if Unescape(s[0]).Some? then Ok([Unescape(s[0]).value], s[1..])
    else Fail
  }

  /** `_parse_string`: the text behind an opening quote; `acc` has been read already. */
  function StringFrom(s: Bytes, acc: Bytes): (r: Parsed<Bytes>)
    ensures r.Ok? ==> |r.rest| < |s|
    decreases |s|
  {
    if s == [] || s[0] < ' ' then Fail
    else if s[0] == '"' then Ok(acc, s[1..])
    else if s[0] != '\\' then StringFrom(s[1..], acc + [s[0]])
    else
      match EscapeFrom(s[1..])
      case Fail => Fail
      case Ok(b, rest) => StringFrom(rest, acc + b)
  }

  lemma StringStep(s: Bytes, acc: Bytes)
    ensures s == [] || s[0] < ' ' ==> StringFrom(s, acc) == Fail
    ensures StartsWith(s, '"') ==> StringFrom(s, acc) == Ok(acc, s[1..])
    ensures s != [] && s[0] >= ' ' && s[0] != '"' && s[0] != '\\' ==>
      StringFrom(s, acc) == StringFrom(s[1..], acc + [s[0]])
    ensures StartsWith(s, '\\') ==>
      var e := EscapeFrom(s[1..]);
      StringFrom(s, acc) == if e.Fail? then Fail else StringFrom(e.rest, acc + e.value)
  {
    hide EscapeFrom;
  }

  predicate IsDigit(c: byte) {
    '0' <= c <= '9'
  }

  /** The characters `_parse_number` collects. */
  predicate IsNumberChar(c: byte) {
    IsDigit(c) || c == '+' || c == '-' || c == 'e' || c == 'E' || c == '.'
  }

  predicate StartsLikeNumber(s: Bytes) {
    s != [] && IsNumberChar(s[0])
  }

  /** How many number characters `s` starts with. */
  function NumberSpan(s: Bytes): (n: nat)
    ensures n <= |s|
  {
    if StartsLikeNumber(s) then 1 + NumberSpan(s[1..]) else 0
  }

  lemma {:induction false} NumberSpanMeans(s: Bytes)
    ensures forall i | 0 <= i < NumberSpan(s) :: IsNumberChar(s[i])
    ensures !StartsLikeNumber(s[NumberSpan(s)..])
  {
    if StartsLikeNumber(s) {
      NumberSpanMeans(s[1..]);
      assert s[1..][NumberSpan(s[1..])..] == s[NumberSpan(s)..];
    }
  }

  function DigitSpan(s: Bytes): (n: nat)
    ensures n <= |s|
    ensures forall i | 0 <= i < n :: IsDigit(s[i])
  {
    if s != [] && IsDigit(s[0]) then 1 + DigitSpan(s[1..]) else 0
  }

  function DropSign(s: Bytes): Bytes {
    if s != [] && (s[0] == '-' || s[0] == '+') then s[1..] else s
  }

  predicate AllDigits(s: Bytes) {
    forall i | 0 <= i < |s| :: IsDigit(s[i])
  }

  function DigitsValue(s: Bytes): nat
    requires AllDigits(s)
  {
    if s == [] then 0 else DigitsValue(s[..|s| - 1]) * 10 + (s[|s| - 1] as int - '0' as int)
  }

  /** `strtoimax` reads all of `s` and the result is in range. */
  function Int64Of(s: Bytes): Option<int> {
    var digits := DropSign(s);
    if digits == [] || !AllDigits(digits) then None
    else
      var n: int := DigitsValue(digits);
      var i := if s[0] == '-' then -n else n;
      if IsInt64(i) then Some(i) else None
  }

  /** `strtod` reads all of `s`, which holds only number characters. */
  predicate IsDecimalLiteral(s: Bytes) {
    var u := DropSign(s);
    var whole := DigitSpan(u);
    var v := u[whole..];
    var fraction := if StartsWith(v, '.') then DigitSpan(v[1..]) else 0;
    var w := if StartsWith(v, '.') then v[1 + fraction..] else v;
    whole + fraction > 0 &&
    (w == [] ||
     ((w[0] == 'e' || w[0] == 'E') && DropSign(w[1..]) != [] && AllDigits(DropSign(w[1..]))))
  }

  function Power(b: nat, e: nat): (r: nat)
    ensures b > 0 ==> r > 0
  {
    if e == 0 then 1 else b * Power(b, e - 1)
  }

  /** The least number that a double rounds to infinity: half way from the largest double, which has
      53 ones, to two to the 1024th. */
  function InfinityFrom(): nat {
    (Power(2, 54) - 1) * Power(2, 970)
  }

  /** `strtod` gives an infinite value: the digits, scaled by the exponent and the point, reach the
      limit. */
  predicate RoundsToInfinity(s: Bytes)
    requires IsDecimalLiteral(s)
  {
    var u := DropSign(s);
    var whole := DigitSpan(u);
    var v := u[whole..];
    var fraction := if StartsWith(v, '.') then DigitSpan(v[1..]) else 0;
    var w := if StartsWith(v, '.') then v[1 + fraction..] else v;
    var digits := DigitsValue(u[..whole] + (if fraction > 0 then v[1..1 + fraction] else []));
    var exponent := if w == [] then 0 else DigitsValue(DropSign(w[1..]));
    var scale := (if w != [] && StartsWith(w[1..], '-') then -exponent else exponent) - fraction;
    if scale >= 0 then digits * Power(10, scale) >= InfinityFrom() else digits >= InfinityFrom() * Power(10, -scale)
  }

  /** The number whose collected characters are `s`. An infinite value makes the constructor of
      `value` throw, which to a caller of the parser is one more failure. */
  function NumberOf(s: Bytes): Option<Value> {
    if Int64Of(s).Some? then Some(Int(Int64Of(s).value))
    else if IsDecimalLiteral(s) && !RoundsToInfinity(s) then Some(Float(s))
    else None
  }

  /** The characters of a keyword behind its first one. */
  function Keyword(s: Bytes, tail: Bytes, v: Value): (r: Parsed<Value>)
    ensures r.Ok? ==> |r.rest| <= |s|
  {
    if tail <= s then Ok(v, s[|tail|..]) else Fail
  }

  /** The cases of `_parse` that do not recurse. `t` starts with the first significant byte. */
  function ScalarFrom(t: Bytes): (r: Parsed<Value>)
    requires t != []
    ensures r.Ok? ==> |r.rest| < |t|
  {
    if t[0] == 'n' then Keyword(t[1..], "ull", Null)
    else if t[0] == 'f' then Keyword(t[1..], "alse", Bool(false))
    else if t[0] == 't' then Keyword(t[1..], "rue", Bool(true))
    else if t[0] == '"' then
      match StringFrom(t[1..], [])
      case Ok(x, rest) => Ok(Str(x), rest)
      case Fail => Fail
    else if IsDigit(t[0]) || t[0] == '-' then
      var n := NumberSpan(t);
      var v := NumberOf(t[..n]);
      if v.Some? then Ok(v.value, t[n..]) else Fail
    else Fail
  }

  /** `_parse` with `d` units of depth left. */
  function ValueFrom(s: Bytes, d: nat): (r: Parsed<Value>)
    ensures r.Ok? ==> |r.rest| < |s|
    decreases |s|, 0
  {
    var t := SkipWs(s);
    if t == [] then Fail
    else if t[0] == '[' then
      if d == 0 then Fail
      else
        var u := SkipWs(t[1..]);
        if StartsWith(u, ']') then Ok(Arr([]), u[1..]) else ItemsFrom(u, d - 1, [])
    else if t[0] == '{' then
      if d == 0 then Fail
      else
        var u := SkipWs(t[1..]);
        if StartsWith(u, '}') then Ok(Obj(map[]), u[1..]) else MembersFrom(u, d, map[])
    else ScalarFrom(t)
  }

  /** The loop of `_parse_array`, at an item; `acc` holds the items before it. */
  function ItemsFrom(s: Bytes, d: nat, acc: seq<Value>): (r: Parsed<Value>)
    ensures r.Ok? ==> |r.rest| < |s|
    decreases |s|, 1
  {
    match ValueFrom(s, d)
    case Fail => Fail
    case Ok(x, rest) =>
      var t := SkipWs(rest);
      if StartsWith(t, ',') then ItemsFrom(t[1..], d, acc + [x])
      else if StartsWith(t, ']') then Ok(Arr(acc + [x]), t[1..])
      else Fail
  }

  lemma SkipWsTwice(s: Bytes)
    ensures SkipWs(SkipWs(s)) == SkipWs(s)
  {
  }

  /** One turn of the loop. */
  lemma ItemsStep(s: Bytes, d: nat, acc: seq<Value>)
    ensures ValueFrom(s, d).Fail? ==> ItemsFrom(s, d, acc) == Fail
    ensures ValueFrom(s, d).Ok? ==>
      var x, t := ValueFrom(s, d).value, SkipWs(ValueFrom(s, d).rest);
      ItemsFrom(s, d, acc) ==
        if StartsWith(t, ',') then ItemsFrom(t[1..], d, acc + [x])
        else if StartsWith(t, ']') then Ok(Arr(acc + [x]), t[1..])
        else Fail
  {
    hide ValueFrom, SkipWs;
  }

  /** One `"key" :` of an object. */
  function KeyFrom(s: Bytes): (r: Parsed<Bytes>)
    ensures r.Ok? ==> |r.rest| < |s|
  {
    var t := SkipWs(s);
    if !StartsWith(t, '"') then Fail
    else
      match StringFrom(t[1..], [])
      case Fail => Fail
      case Ok(k, rest) =>
        var u := SkipWs(rest);
        if StartsWith(u, ':') then Ok(k, u[1..]) else Fail
  }

  /** The loop of `_parse_object`, at a key. A key seen before gets its new value. */
  function MembersFrom(s: Bytes, d: nat, acc: map<Bytes, Value>): (r: Parsed<Value>)
    ensures r.Ok? ==> |r.rest| < |s|
    decreases |s|, 1
  {
    match KeyFrom(s)
    case Fail => Fail
    case Ok(k, afterKey) =>
      match ValueFrom(afterKey, d)
      case Fail => Fail
      case Ok(x, rest) =>
        var t := SkipWs(rest);
        if StartsWith(t, ',') then MembersFrom(t[1..], d, acc[k := x])
        else if StartsWith(t, '}') then Ok(Obj(acc[k := x]), t[1..])
        else Fail
  }

  /** One turn of the loop. */
  lemma MembersStep(s: Bytes, d: nat, acc: map<Bytes, Value>)
    ensures KeyFrom(s).Fail? ==> MembersFrom(s, d, acc) == Fail
    ensures KeyFrom(s).Ok? && ValueFrom(KeyFrom(s).rest, d).Fail? ==> MembersFrom(s, d, acc) == Fail
    ensures KeyFrom(s).Ok? && ValueFrom(KeyFrom(s).rest, d).Ok? ==>
      var k, r := KeyFrom(s).value, ValueFrom(KeyFrom(s).rest, d);
      var t := SkipWs(r.rest);
      MembersFrom(s, d, acc) ==
        if StartsWith(t, ',') then MembersFrom(t[1..], d, acc[k := r.value])
        else if StartsWith(t, '}') then Ok(Obj(acc[k := r.value]), t[1..])
        else Fail
  {
    hide KeyFrom, ValueFrom, SkipWs;
  }

  /** `picojson::parse(out, s)`: the value, when the returned error text is empty. Text behind the
      value is ignored. */
  function Parse(s: Bytes): Option<Value> {
    match ValueFrom(s, DEFAULT_MAX_DEPTHS)
    case Ok(v, _) => Some(v)
    case Fail => None
  }
}
