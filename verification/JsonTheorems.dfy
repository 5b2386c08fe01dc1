/** The laws of the JSON layer that the rest of the system relies on. */
module JsonTheorems {
  import opened ByteStrings
  import opened JsonValue
  import T = JsonText
  import opened JsonGrammar
  import JsonReading
  import JsonRoundTrip
  import Utf8

  /** Text of the form that `Serialize` gives is read back exactly when the nesting fits the budget. */
  lemma BodyRoundTrip(v: Value, indent: int, d: nat, rest: Bytes, fmt: DoubleFormat)
    requires indent >= T.COMPACT && DoubleFree(v) && !StartsLikeNumber(rest)
    ensures ValueFrom(T.Body(v, indent, fmt) + rest, d) == if FitsDepth(v, d) then Ok(v, rest) else Fail
  {
    hide *;
    var s := T.Body(v, indent, fmt) + rest;
    if FitsDepth(v, d) {
      JsonRoundTrip.ValueReads(v, indent, d, rest, fmt);
    } else if ValueFrom(s, d).Ok? {
      var e := FitsSome(v);
      FitsMore(v, e, d + e);
      JsonRoundTrip.ValueReads(v, indent, d + e, rest, fmt);
      JsonReading.BudgetMonotone(s, d, d + e);
      JsonReading.ValueFits(s, d);
      assert false;
    }
  }

  /** Compact text, with anything behind it that cannot extend a number: the value comes back and
      exactly that is left; values nested too deeply are refused. */
  lemma CompactRoundTrip(v: Value, d: nat, rest: Bytes, fmt: DoubleFormat)
    requires DoubleFree(v) && !StartsLikeNumber(rest)
    ensures ValueFrom(T.Serialize(v, T.COMPACT, fmt) + rest, d)
         == if FitsDepth(v, d) then Ok(v, rest) else Fail
  {
    hide T.Body, ValueFrom, FitsDepth;
    assert T.Serialize(v, T.COMPACT, fmt) == T.Body(v, T.COMPACT, fmt);
    BodyRoundTrip(v, T.COMPACT, d, rest, fmt);
  }

  /** Prettified text parses to the same value; its final newline is what stays unread. */
  lemma PrettyRoundTrip(v: Value, d: nat, rest: Bytes, fmt: DoubleFormat)
    requires DoubleFree(v)
    ensures ValueFrom(T.Serialize(v, 0, fmt) + rest, d)
         == if FitsDepth(v, d) then Ok(v, ['\n'] + rest) else Fail
  {
    hide T.Body, ValueFrom, FitsDepth;
    assert T.Serialize(v, 0, fmt) + rest == T.Body(v, 0, fmt) + (['\n'] + rest);
    BodyRoundTrip(v, 0, d, ['\n'] + rest, fmt);
  }

  /** `parse(serialize(v))`, as the token layer uses it. */
  lemma ParseSerialize(v: Value, fmt: DoubleFormat)
    requires DoubleFree(v)
    ensures Parse(T.Serialize(v, T.COMPACT, fmt))
         == if FitsDepth(v, 100) then Some(v) else None
  {
    hide T.Serialize, ValueFrom, FitsDepth;
    assert T.Serialize(v, T.COMPACT, fmt) + [] == T.Serialize(v, T.COMPACT, fmt);
    CompactRoundTrip(v, DEFAULT_MAX_DEPTHS, [], fmt);
  }

  /** Comparing texts compares values. */
  lemma SerializationDecidesEquality(a: Value, b: Value, fmt: DoubleFormat)
    requires DoubleFree(a) && DoubleFree(b)
    ensures T.Serialize(a, T.COMPACT, fmt) == T.Serialize(b, T.COMPACT, fmt) <==> a == b
  {
    hide T.Serialize, ValueFrom, FitsDepth, DoubleFree;
    if T.Serialize(a, T.COMPACT, fmt) == T.Serialize(b, T.COMPACT, fmt) {
      var d := FitsSome(a);
      var e := FitsSome(b);
      FitsMore(a, d, d + e);
      FitsMore(b, e, d + e);
      CompactRoundTrip(a, d + e, [], fmt);
      CompactRoundTrip(b, d + e, [], fmt);
    }
  }

  /** Nothing `parse` accepts has an array or object beneath 100 arrays, so no path from the root
      crosses more than 100 arrays. */
  lemma AcceptedDepth(s: Bytes)
    requires Parse(s).Some?
    ensures ShallowContainers(Parse(s).value, 100)
    ensures forall path | PathOk(Parse(s).value, path) :: ArraysAbove(path) <= 100
  {
    hide ValueFrom, ShallowContainers;
    var v := Parse(s).value;
    JsonReading.ValueFits(s, DEFAULT_MAX_DEPTHS);
    FitsIffShallow(v, DEFAULT_MAX_DEPTHS);
    forall path | PathOk(v, path) ensures ArraysAbove(path) <= DEFAULT_MAX_DEPTHS {
      FewArraysOnPath(v, DEFAULT_MAX_DEPTHS, path);
    }
  }

  lemma {:induction false} FewArraysOnPath(v: Value, d: nat, path: seq<Step>)
    requires FitsDepth(v, d) && PathOk(v, path)
    ensures ArraysAbove(path) <= d
    decreases |path|
  {
    if path != [] {
      FewArraysOnPath(Child(v, path[0]), if path[0].Index? then d - 1 else d, path[1..]);
    }
  }

  /** `n` objects, each the only member of the one around it. */
  function Nest(n: nat): Value {
    if n == 0 then Null else Obj(map["a" := Nest(n - 1)])
  }

  lemma {:induction false} NestIsShallow(n: nat)
    ensures DoubleFree(Nest(n)) && FitsDepth(Nest(n), 1)
  {
    if n > 0 {
      NestIsShallow(n - 1);
    }
  }

  lemma {:induction false} NestIsDeep(n: nat) returns (path: seq<Step>)
    ensures |path| == n && PathOk(Nest(n), path) && At(Nest(n), path) == Null
  {
    if n == 0 {
      path := [];
    } else {
      var tail := NestIsDeep(n - 1);
      path := [Key("a")] + tail;
      assert path[1..] == tail;
    }
  }

  /** That budget does not bound objects: the parser accepts any number of them inside each other. */
  lemma ObjectsNestFreely(n: nat, fmt: DoubleFormat)
    ensures Parse(T.Serialize(Nest(n), T.COMPACT, fmt)) == Some(Nest(n))
    ensures exists path :: |path| == n && PathOk(Nest(n), path)
  {
    hide Nest, Parse, T.Serialize, FitsDepth, DoubleFree, PathOk;
    NestIsShallow(n);
    FitsMore(Nest(n), 1, DEFAULT_MAX_DEPTHS);
    ParseSerialize(Nest(n), fmt);
    var path := NestIsDeep(n);
  }

  /** White space of RFC 8259: blank, tab, line feed and carriage return. */
  lemma WsExact(c: byte)
    ensures IsWs(c) <==> c as int in {0x20, 0x09, 0x0a, 0x0d}
  {
  }

  /** `to_str`: a string is its bytes, without quotes or escapes; arrays and objects give a word instead
      of what they hold; everything else is printed as in a text. */
  lemma ToStrExact(v: Value, fmt: DoubleFormat)
    ensures T.ToStr(v, fmt) ==
      if v.Str? then v.s
      else if v.Arr? then "array"
      else if v.Obj? then "object"
      else T.Serialize(v, T.COMPACT, fmt)
  {
    hide T.IntText;
  }

  // ----- \u escapes, section 7 of RFC 8259 -----

  const LOWER_DIGITS: Bytes := "0123456789abcdef"
  const UPPER_DIGITS: Bytes := "0123456789ABCDEF"

  /** `c` is the hexadecimal digit for `k`, in either case. */
  predicate IsHexDigit(c: byte, k: int) {
    0 <= k < 16 && (c == LOWER_DIGITS[k] || c == UPPER_DIGITS[k])
  }

  /** The value the parser gives a byte is that of the digit it is. */
  lemma HexValueExact(c: byte, k: nat)
    ensures HexValue(c) == Some(k) <==> IsHexDigit(c, k)
  {
    if k < 8 {
      LowHalf(k);
    } else if k < 16 {
      HighHalf(k);
    }
  }

  lemma LowHalf(k: nat)
    requires k < 8
    ensures LOWER_DIGITS[k] == UPPER_DIGITS[k] == ('0' as int + k) as char
  {
    assert k == 0 || k == 1 || k == 2 || k == 3 || k == 4 || k == 5 || k == 6 || k == 7;
  }

  lemma HighHalf(k: nat)
    requires 8 <= k < 16
    ensures k < 10 ==> LOWER_DIGITS[k] == UPPER_DIGITS[k] == ('0' as int + k) as char
    ensures k >= 10 ==> LOWER_DIGITS[k] == ('a' as int + k - 10) as char && UPPER_DIGITS[k] == ('A' as int + k - 10) as char
  {
    assert k == 8 || k == 9 || k == 10 || k == 11 || k == 12 || k == 13 || k == 14 || k == 15;
  }

  /** The four hexadecimal digits at `i` spell `n`. */
  ghost predicate SpellsUnit(s: Bytes, i: nat, n: int) {
    i + 4 <= |s| && SpelledBy(s[i..i + 4], n)
  }

  ghost predicate SpelledBy(digits: Bytes, n: int) {
    exists a, b, c, d :: AreHexDigits(digits, a, b, c, d) && n == a * 4096 + b * 256 + c * 16 + d
  }

  predicate AreHexDigits(s: Bytes, a: int, b: int, c: int, d: int) {
    |s| == 4 && IsHexDigit(s[0], a) && IsHexDigit(s[1], b) && IsHexDigit(s[2], c) && IsHexDigit(s[3], d)
  }

  /** The first `len` bytes behind `\u` name the scalar value `u`: one unit that is no surrogate, or
      a high surrogate followed by the escape of a low one. */
  ghost predicate Names(s: Bytes, u: int, len: nat) {
    (len == 4 && Utf8.IsScalar(u) && SpellsUnit(s, 0, u)) ||
    (len == 10 && |s| >= 10 && s[4] == '\\' && s[5] == 'u' &&
     exists high, low ::
       SpellsUnit(s, 0, high) && SpellsUnit(s, 6, low) && 0xd800 <= high <= 0xdbff && 0xdc00 <= low <= 0xdfff &&
       u == 0x10000 + (high - 0xd800) * 0x400 + (low - 0xdc00))
  }

  /** The same number, computed. */
  function HexUnit(s: Bytes, i: nat): Option<nat> {
    if i + 4 <= |s| && forall j | i <= j < i + 4 :: HexValue(s[j]).Some? then
      Some(HexValue(s[i]).value * 4096 + HexValue(s[i + 1]).value * 256
           + HexValue(s[i + 2]).value * 16 + HexValue(s[i + 3]).value)
    else None
  }

  lemma HexUnitExact(s: Bytes, i: nat, n: nat)
    ensures HexUnit(s, i) == Some(n) <==> SpellsUnit(s, i, n)
  {
    hide HexValue, IsHexDigit;
    if i + 4 <= |s| {
      var t := s[i..i + 4];
      assert t[0] == s[i] && t[1] == s[i + 1] && t[2] == s[i + 2] && t[3] == s[i + 3];
      forall j, k: nat | 0 <= j < 4 ensures HexValue(t[j]) == Some(k) <==> IsHexDigit(t[j], k) {
        HexValueExact(t[j], k);
      }
      if HexUnit(s, i) == Some(n) {
        assert AreHexDigits(t, HexValue(t[0]).value, HexValue(t[1]).value, HexValue(t[2]).value, HexValue(t[3]).value);
      }
      if SpellsUnit(s, i, n) {
        var a, b, c, d :| AreHexDigits(t, a, b, c, d) && n == a * 4096 + b * 256 + c * 16 + d;
        DigitIsSmall(t[0], a);
        DigitIsSmall(t[1], b);
        DigitIsSmall(t[2], c);
        DigitIsSmall(t[3], d);
        assert HexValue(t[0]) == Some(a) && HexValue(t[1]) == Some(b) && HexValue(t[2]) == Some(c) && HexValue(t[3]) == Some(d);
      }
    }
  }

  lemma DigitIsSmall(c: byte, k: int)
    requires IsHexDigit(c, k)
    ensures 0 <= k < 16
  {
  }

  lemma UnitIsNat(s: Bytes, i: nat, n: int)
    requires SpellsUnit(s, i, n)
    ensures n >= 0
  {
  }

  predicate NamesByValue(s: Bytes, u: int, len: nat) {
    match HexUnit(s, 0)
    case None => false
    case Some(first) =>
      if Utf8.IsHighSurrogate(first) then
        len == 10 && |s| >= 10 && s[4] == '\\' && s[5] == 'u' && HexUnit(s, 6).Some? &&
        Utf8.IsLowSurrogate(HexUnit(s, 6).value) && u == Utf8.Combine(first, HexUnit(s, 6).value)
      else len == 4 && u == first && Utf8.IsScalar(u)
  }

  lemma NamesExact(s: Bytes, u: int, len: nat)
    ensures Names(s, u, len) <==> NamesByValue(s, u, len)
  {
    hide HexUnit, SpellsUnit;
    forall i: nat, n: nat ensures SpellsUnit(s, i, n) <==> HexUnit(s, i) == Some(n) {
      HexUnitExact(s, i, n);
    }
    forall i: nat, n | SpellsUnit(s, i, n) ensures n >= 0 {
      UnitIsNat(s, i, n);
    }
    if NamesByValue(s, u, len) {
      var first := HexUnit(s, 0).value;
      assert SpellsUnit(s, 0, first);
      if Utf8.IsHighSurrogate(first) {
        assert SpellsUnit(s, 6, HexUnit(s, 6).value);
      }
    }
  }

  lemma QuadHexReads(s: Bytes, i: nat)
    requires i <= |s|
    ensures QuadHex(s[i..]) == match HexUnit(s, i) case Some(n) => Ok(n, s[i + 4..]) case None => Fail
  {
    var t := s[i..];
    if HexUnit(s, i).Some? {
      assert t[1..] == s[i + 1..] && t[1..][1..] == s[i + 2..] && t[1..][1..][1..] == s[i + 3..]
        && t[1..][1..][1..][1..] == s[i + 4..];
      assert HexCount(1) == 16 && HexCount(2) == 256 && HexCount(3) == 4096;
      var a, b := HexValue(s[i]).value, HexValue(s[i + 1]).value;
      var c, d := HexValue(s[i + 2]).value, HexValue(s[i + 3]).value;
      assert QuadHexFrom(t[1..][1..][1..], 3, (a * 16 + b) * 16 + c)
        == Ok(((a * 16 + b) * 16 + c) * 16 + d, s[i + 4..]);
      assert QuadHexFrom(t[1..], 1, a) == QuadHexFrom(t[1..][1..], 2, a * 16 + b);
    } else if QuadHex(t).Ok? {
      FourDigitsRead(t);
      assert false;
    }
  }

  lemma FourDigitsRead(t: Bytes)
    requires QuadHex(t).Ok?
    ensures |t| >= 4 && HexValue(t[0]).Some? && HexValue(t[1]).Some? && HexValue(t[2]).Some? && HexValue(t[3]).Some?
  {
    assert HexCount(1) == 16 && HexCount(2) == 256 && HexCount(3) == 4096;
    var t1, n1 := t[1..], HexValue(t[0]).value;
    assert t1 != [] && t1[0] == t[1];
    var t2, n2 := t1[1..], n1 * 16 + HexValue(t1[0]).value;
    assert QuadHexFrom(t1, 1, n1) == QuadHexFrom(t2, 2, n2);
    assert t2 != [] && t2[0] == t[2];
    var t3, n3 := t2[1..], n2 * 16 + HexValue(t2[0]).value;
    assert QuadHexFrom(t2, 2, n2) == QuadHexFrom(t3, 3, n3);
    assert t3 != [] && t3[0] == t[3];
  }

  lemma EscapeByValue(s: Bytes)
    ensures Codepoint(s).Ok? <==> exists u, len: nat :: NamesByValue(s, u, len)
    ensures forall u, len: nat | NamesByValue(s, u, len) ::
      Utf8.IsScalar(u) && len <= |s| && Codepoint(s) == Ok(Utf8.Encode(u), s[len..]) &&
      Utf8.WellFormed(Utf8.Encode(u)) && Utf8.CodeOf(Utf8.Encode(u)) == u
  {
    hide QuadHexFrom, Utf8.Encode;
    assert s[0..] == s;
    QuadHexReads(s, 0);
    if |s| >= 6 {
      QuadHexReads(s, 6);
      assert s[4..][2..] == s[6..];
    }
    if Codepoint(s).Ok? {
      var first := HexUnit(s, 0).value;
      if Utf8.IsHighSurrogate(first) {
        assert s[4..][0] == s[4] && s[4..][1] == s[5];
        assert NamesByValue(s, Utf8.Combine(first, HexUnit(s, 6).value), 10);
      } else {
        assert NamesByValue(s, first, 4);
      }
    }
    forall u, len: nat | NamesByValue(s, u, len)
      ensures Utf8.IsScalar(u) && len <= |s| && Codepoint(s) == Ok(Utf8.Encode(u), s[len..])
      ensures Utf8.WellFormed(Utf8.Encode(u)) && Utf8.CodeOf(Utf8.Encode(u)) == u
    {
      var first := HexUnit(s, 0).value;
      if Utf8.IsHighSurrogate(first) {
        Utf8.SurrogatePairsInjective(first, HexUnit(s, 6).value);
        assert s[4..][0] == s[4] && s[4..][1] == s[5];
      }
      Utf8.EncodeCorrect(u);
    }
  }

  /** An escape is accepted exactly when it names a scalar value, and then what is appended is the
      one well-formed UTF-8 character of that value. A surrogate without its partner names nothing. */
  lemma EscapeMeaning(s: Bytes)
    ensures Codepoint(s).Ok? <==> exists u, len: nat :: Names(s, u, len)
    ensures forall u, len: nat | Names(s, u, len) ::
      Utf8.IsScalar(u) && len <= |s| && Codepoint(s) == Ok(Utf8.Encode(u), s[len..]) &&
      Utf8.WellFormed(Utf8.Encode(u)) && Utf8.CodeOf(Utf8.Encode(u)) == u
  {
    hide Codepoint, Utf8.Encode, Utf8.WellFormed, Utf8.CodeOf, Utf8.IsScalar, Names, NamesByValue;
    EscapeByValue(s);
    forall u, len: nat ensures Names(s, u, len) <==> NamesByValue(s, u, len) {
      NamesExact(s, u, len);
    }
  }

  /** The eight letters that may follow a backslash, and the bytes they stand for. */
  const ESCAPE_LETTERS: Bytes := "\"\\/bfnrt"
  const ESCAPED_BYTES: Bytes := ['"', '\\', '/', 8 as char, 12 as char, '\n', '\r', '\t']

  lemma UnescapeExact(c: byte, b: byte)
    ensures Unescape(c) == Some(b) <==> exists k | 0 <= k < 8 :: ESCAPE_LETTERS[k] == c && ESCAPED_BYTES[k] == b
  {
    EightLetters();
    if Unescape(c) == Some(b) {
      assert c == ESCAPE_LETTERS[0] || c == ESCAPE_LETTERS[1] || c == ESCAPE_LETTERS[2] || c == ESCAPE_LETTERS[3]
        || c == ESCAPE_LETTERS[4] || c == ESCAPE_LETTERS[5] || c == ESCAPE_LETTERS[6] || c == ESCAPE_LETTERS[7];
    }
  }

  lemma EightLetters()
    ensures |ESCAPE_LETTERS| == |ESCAPED_BYTES| == 8
    ensures forall k | 0 <= k < 8 :: Unescape(ESCAPE_LETTERS[k]) == Some(ESCAPED_BYTES[k])
  {
    forall k | 0 <= k < 8 ensures Unescape(ESCAPE_LETTERS[k]) == Some(ESCAPED_BYTES[k]) {
      assert k == 0 || k == 1 || k == 2 || k == 3 || k == 4 || k == 5 || k == 6 || k == 7;
    }
  }

  /** How each byte is printed: by one of those letters; a control character or DEL without one by four
      lower-case digits; and any other byte as it is. */
  lemma EscapeByteExact(c: byte)
    ensures (exists k | 0 <= k < 8 :: ESCAPED_BYTES[k] == c) ==>
      exists k | 0 <= k < 8 :: ESCAPED_BYTES[k] == c && T.EscapeByte(c) == ['\\', ESCAPE_LETTERS[k]]
    ensures c !in ESCAPED_BYTES && (c < ' ' || c as int == 0x7f) ==>
      exists a, b :: 0 <= a < 16 && 0 <= b < 16 && c as int == a * 16 + b &&
        T.EscapeByte(c) == ['\\', 'u', '0', '0', LOWER_DIGITS[a], LOWER_DIGITS[b]]
    ensures c !in ESCAPED_BYTES && c >= ' ' && c as int != 0x7f ==> T.EscapeByte(c) == [c]
  {
    hide T.HexDigit;
    EightLetters();
    forall k | 0 <= k < 8 && ESCAPED_BYTES[k] == c ensures T.EscapeByte(c) == ['\\', ESCAPE_LETTERS[k]] {
      assert k == 0 || k == 1 || k == 2 || k == 3 || k == 4 || k == 5 || k == 6 || k == 7;
    }
    if c !in ESCAPED_BYTES {
      assert c != ESCAPED_BYTES[0] && c != ESCAPED_BYTES[1] && c != ESCAPED_BYTES[2] && c != ESCAPED_BYTES[3]
        && c != ESCAPED_BYTES[4] && c != ESCAPED_BYTES[5] && c != ESCAPED_BYTES[6] && c != ESCAPED_BYTES[7];
      var a, b := c as int / 16, c as int % 16;
      assert c as int == a * 16 + b;
      PrintedDigit(a);
      PrintedDigit(b);
    }
  }

  lemma PrintedDigit(k: nat)
    requires k < 16
    ensures T.HexDigit(k) == LOWER_DIGITS[k]
  {
    if k < 8 {
      LowHalf(k);
    } else {
      HighHalf(k);
    }
  }
}
