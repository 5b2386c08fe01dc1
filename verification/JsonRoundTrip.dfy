/** Printing a value and parsing the text gives the value back, and nothing behind it is read. */
module JsonRoundTrip {
  import opened ByteStrings
  import opened JsonValue
  import T = JsonText
  import opened G = JsonGrammar

  // ----- white space -----

  lemma {:induction false} SkipSpaces(n: nat, s: Bytes)
    requires s == [] || !IsWs(s[0])
    ensures SkipWs(T.Spaces(n) + s) == s
  {
    if n == 0 {
      assert T.Spaces(n) + s == s;
    } else {
      assert (T.Spaces(n) + s)[1..] == T.Spaces(n - 1) + s;
      SkipSpaces(n - 1, s);
    }
  }

  lemma SkipLineBreak(indent: int, s: Bytes)
    requires indent >= T.COMPACT && (s == [] || !IsWs(s[0]))
    ensures SkipWs(T.LineBreak(indent) + s) == s
  {
    if indent == T.COMPACT {
      assert T.LineBreak(indent) + s == s;
    } else {
      assert (T.LineBreak(indent) + s)[1..] == T.Spaces(indent * T.INDENT_WIDTH) + s;
      SkipSpaces(indent * T.INDENT_WIDTH, s);
    }
  }

  // ----- strings -----

  lemma ZeroIsHex()
    ensures HexValue('0') == Some(0)
  {
  }

  lemma HexDigitReads(c: byte, rest: Bytes, read: nat, n: nat)
    requires read < 4 && n < HexCount(read) && HexValue(c).Some?
    ensures var m := n * 16 + HexValue(c).value;
      m < HexCount(read + 1) && QuadHexFrom([c] + rest, read, n) == QuadHexFrom(rest, read + 1, m)
  {
    hide QuadHexFrom, HexCount, HexValue;
    QuadHexStep([c] + rest, read, n);
    assert ([c] + rest)[0] == c && ([c] + rest)[1..] == rest;
  }

  lemma HexPairReads(q: Bytes, hi: byte, lo: byte, rest: Bytes)
    requires q == ['0'] + (['0'] + ([hi] + ([lo] + rest))) && HexValue(hi).Some? && HexValue(lo).Some?
    ensures QuadHex(q) == Ok(HexValue(hi).value * 16 + HexValue(lo).value, rest)
  {
    hide QuadHexFrom, HexCount, HexValue;
    var m := HexValue(hi).value;
    ZeroIsHex();
    HexCountZero();
    HexDigitReads('0', ['0'] + ([hi] + ([lo] + rest)), 0, 0);
    HexDigitReads('0', [hi] + ([lo] + rest), 1, 0);
    HexDigitReads(hi, [lo] + rest, 2, 0);
    HexDigitReads(lo, rest, 3, m);
    QuadHexStep(rest, 4, m * 16 + HexValue(lo).value);
  }

  /** The escape of a byte, behind its backslash, stands for that byte. */
  lemma EscapeReads(c: byte, rest: Bytes)
    requires |T.EscapeByte(c)| > 1
    ensures EscapeFrom(T.EscapeByte(c)[1..] + rest) == Ok([c], rest)
  {
    hide QuadHex;
    var s := T.EscapeByte(c)[1..] + rest;
    if |T.EscapeByte(c)| == 6 {
      var hi, lo := T.HexDigit(c as int / 16), T.HexDigit(c as int % 16);
      assert s[1..] == ['0'] + (['0'] + ([hi] + ([lo] + rest)));
      HexPairReads(s[1..], hi, lo, rest);
    } else {
      assert s[1..] == rest;
    }
  }

  /** Reading one escaped byte appends that byte. */
  lemma EscapedByteReads(c: byte, rest: Bytes, acc: Bytes)
    ensures StringFrom(T.EscapeByte(c) + rest, acc) == StringFrom(rest, acc + [c])
  {
    hide EscapeFrom, StringFrom;
    var e := T.EscapeByte(c);
    var s := e + rest;
    StringStep(s, acc);
    if |e| == 1 {
      assert s[1..] == rest;
    } else {
      assert s[0] == '\\' && s[1..] == e[1..] + rest;
      EscapeReads(c, rest);
    }
  }

  lemma EscapeAllEmpty(tail: Bytes)
    ensures T.EscapeAll([]) + tail == tail
  {
  }

  lemma EscapeAllSplits(x: Bytes, tail: Bytes)
    requires x != []
    ensures T.EscapeAll(x) + tail == T.EscapeByte(x[0]) + (T.EscapeAll(x[1..]) + tail)
  {
  }

  lemma {:induction false} EscapedStringReads(x: Bytes, rest: Bytes, acc: Bytes)
    ensures StringFrom(T.EscapeAll(x) + (['"'] + rest), acc) == Ok(acc + x, rest)
  {
    hide *;
    if x == [] {
      QuoteEnds(rest, acc);
      EscapeAllEmpty(['"'] + rest);
      assert acc + x == acc;
    } else {
      EscapeAllSplits(x, ['"'] + rest);
      EscapedByteReads(x[0], T.EscapeAll(x[1..]) + (['"'] + rest), acc);
      EscapedStringReads(x[1..], rest, acc + [x[0]]);
      assert acc + [x[0]] + x[1..] == acc + x;
    }
  }

  lemma QuoteEnds(rest: Bytes, acc: Bytes)
    ensures StringFrom(['"'] + rest, acc) == Ok(acc, rest)
  {
    assert (['"'] + rest)[1..] == rest;
  }

  // ----- integers -----

  lemma {:induction false} DecimalReads(n: nat)
    ensures AllDigits(T.Decimal(n)) && T.Decimal(n) != [] && DigitsValue(T.Decimal(n)) == n
  {
    if n < 10 {
      assert T.Decimal(n)[..0] == [];
    } else {
      DecimalReads(n / 10);
      var ds := T.Decimal(n);
      assert ds[..|ds| - 1] == T.Decimal(n / 10);
    }
  }

  lemma IntReads(i: int)
    requires IsInt64(i)
    ensures Int64Of(T.IntText(i)) == Some(i)
    ensures T.IntText(i) != [] && forall j | 0 <= j < |T.IntText(i)| :: IsNumberChar(T.IntText(i)[j])
    ensures IsDigit(T.IntText(i)[0]) || T.IntText(i)[0] == '-'
  {
    if i < 0 {
      DecimalReads(-i);
      assert T.IntText(i)[1..] == T.Decimal(-i);
    } else {
      DecimalReads(i);
      assert IsDigit(T.Decimal(i)[0]);
    }
  }

  lemma {:induction false} NumberSpanExact(t: Bytes, rest: Bytes)
    requires forall j | 0 <= j < |t| :: IsNumberChar(t[j])
    requires !StartsLikeNumber(rest)
    ensures NumberSpan(t + rest) == |t|
  {
    if t == [] {
      assert t + rest == rest;
    } else {
      assert (t + rest)[1..] == t[1..] + rest;
      NumberSpanExact(t[1..], rest);
    }
  }

  // ----- values -----

  /** No value's text starts like white space, a closing bracket or a separator. */
  lemma BodyStarts(v: Value, indent: int, fmt: DoubleFormat)
    requires indent >= T.COMPACT && DoubleFree(v)
    ensures var b := T.Body(v, indent, fmt);
      b != [] && !IsWs(b[0]) && b[0] != ']' && b[0] != '}' && b[0] != ','
  {
    if v.Int? {
      IntReads(v.i);
    }
  }

  lemma ValueSkipsWs(s: Bytes, d: nat)
    ensures ValueFrom(s, d) == ValueFrom(SkipWs(s), d)
  {
    hide ScalarFrom, ItemsFrom, MembersFrom;
    assert SkipWs(SkipWs(s)) == SkipWs(s);
  }

  lemma StringReads(s: Bytes, x: Bytes, rest: Bytes, d: nat)
    requires s == T.Quoted(x) + rest
    ensures ValueFrom(s, d) == Ok(Str(x), rest)
  {
    assert s[0] == '"' && s[1..] == T.EscapeAll(x) + (['"'] + rest);
    EscapedStringReads(x, rest, []);
    assert [] + x == x;
  }

  lemma KeywordReads(s: Bytes, v: Value, rest: Bytes, d: nat, fmt: DoubleFormat)
    requires v.Null? || v.Bool?
    requires s == T.ToStr(v, fmt) + rest
    ensures ValueFrom(s, d) == Ok(v, rest)
  {
    hide StringFrom, NumberSpan, NumberOf, ItemsFrom, MembersFrom;
    var tail: Bytes := if v.Null? then "ull" else if v.b then "rue" else "alse";
    assert s[1..] == tail + rest;
    assert (tail + rest)[|tail|..] == rest;
  }

  lemma NumberReads(s: Bytes, i: int, rest: Bytes, d: nat)
    requires IsInt64(i) && s == T.IntText(i) + rest && !StartsLikeNumber(rest)
    ensures ValueFrom(s, d) == Ok(Int(i), rest)
  {
    hide StringFrom, NumberSpan, Int64Of, Keyword, ItemsFrom, MembersFrom, T.IntText, IsDecimalLiteral;
    var t := T.IntText(i);
    IntReads(i);
    NumberSpanExact(t, rest);
    assert s[0] == t[0] && s[..|t|] == t && s[|t|..] == rest;
  }

  /** Parsing the text of a value, compact or prettified at any indentation, yields the value and
      stops right behind it, provided what follows cannot extend a number. */
  lemma {:induction false} ValueReads(v: Value, indent: int, d: nat, rest: Bytes, fmt: DoubleFormat)
    requires indent >= T.COMPACT && DoubleFree(v) && FitsDepth(v, d) && !StartsLikeNumber(rest)
    ensures ValueFrom(T.Body(v, indent, fmt) + rest, d) == Ok(v, rest)
    decreases v, 2
  {
    var s := T.Body(v, indent, fmt) + rest;
    match v
    case Null => KeywordReads(s, v, rest, d, fmt);
    case Bool(b) => KeywordReads(s, v, rest, d, fmt);
    case Int(i) => NumberReads(s, i, rest, d);
    case Str(x) => StringReads(s, x, rest, d);
    case Arr(items) => ArrayReads(v, indent, d, rest, fmt);
    case Obj(members) => ObjectReads(v, indent, d, rest, fmt);
  }

  // ----- arrays -----

  /** The text from the `i`-th item on, without the comma in front of it, up to the end. */
  function ItemsText(items: seq<Value>, i: nat, indent: int, fmt: DoubleFormat, closing: Bytes): Bytes
    requires i < |items| && indent >= T.COMPACT && indent != 0
  {
    T.LineBreak(indent) + FirstItemText(items, i, indent, fmt, closing)
  }

  function FirstItemText(items: seq<Value>, i: nat, indent: int, fmt: DoubleFormat, closing: Bytes): Bytes
    requires i < |items| && indent >= T.COMPACT && indent != 0
  {
    T.Body(items[i], indent, fmt) + (T.ItemsFrom(items, i + 1, indent, fmt) + closing)
  }

  lemma RegroupItem(a: Bytes, b: Bytes, c: Bytes, e: Bytes, z: Bytes)
    ensures (a + b + c + e) + z == a + (b + (c + (e + z)))
  {
  }

  lemma ItemsTextStep(items: seq<Value>, i: nat, indent: int, fmt: DoubleFormat, closing: Bytes)
    requires i < |items| && indent >= T.COMPACT && indent != 0
    ensures T.ItemsFrom(items, i, indent, fmt) + closing
         == (if i == 0 then [] else [',']) + ItemsText(items, i, indent, fmt, closing)
  {
    hide T.Body, T.LineBreak;
    var x := items[i];
    assert T.Serialize(x, indent, fmt) == T.Body(x, indent, fmt) + [] == T.Body(x, indent, fmt);
    RegroupItem(if i == 0 then [] else [','], T.LineBreak(indent), T.Body(x, indent, fmt), T.ItemsFrom(items, i + 1, indent, fmt), closing);
  }

  lemma ItemsTextSkips(items: seq<Value>, i: nat, indent: int, fmt: DoubleFormat, closing: Bytes)
    requires i < |items| && indent >= T.COMPACT && indent != 0 && DoubleFree(items[i])
    ensures SkipWs(ItemsText(items, i, indent, fmt, closing)) == FirstItemText(items, i, indent, fmt, closing)
    ensures !StartsWith(FirstItemText(items, i, indent, fmt, closing), ']')
  {
    BodyStarts(items[i], indent, fmt);
    SkipLineBreak(indent, FirstItemText(items, i, indent, fmt, closing));
  }

  /** What the loop of `_parse_array` does once an item has been read. */
  lemma ItemStep(s: Bytes, d: nat, acc: seq<Value>, x: Value, after: Bytes)
    requires ValueFrom(s, d) == Ok(x, after)
    ensures var t := SkipWs(after);
      (StartsWith(t, ',') ==> ItemsFrom(s, d, acc) == ItemsFrom(t[1..], d, acc + [x])) &&
      (StartsWith(t, ']') ==> ItemsFrom(s, d, acc) == Ok(Arr(acc + [x]), t[1..]))
  {
  }

  lemma ClosingSkips(outer: int, bracket: byte, rest: Bytes)
    requires outer >= T.COMPACT && (bracket == ']' || bracket == '}')
    ensures SkipWs(T.LineBreak(outer) + ([bracket] + rest)) == [bracket] + rest
    ensures StartsWith([bracket] + rest, bracket) && ([bracket] + rest)[1..] == rest
    ensures !StartsLikeNumber(T.LineBreak(outer) + ([bracket] + rest))
  {
    SkipLineBreak(outer, [bracket] + rest);
  }

  lemma CommaSkips(next: Bytes)
    ensures var after := [','] + next;
      SkipWs(after) == after && StartsWith(after, ',') && !StartsLikeNumber(after) && after[1..] == next
  {
  }

  lemma FirstItemSplits(items: seq<Value>, i: nat, indent: int, fmt: DoubleFormat, closing: Bytes, after: Bytes)
    requires i < |items| && indent >= T.COMPACT && indent != 0
    requires after == T.ItemsFrom(items, i + 1, indent, fmt) + closing
    ensures FirstItemText(items, i, indent, fmt, closing) == T.Body(items[i], indent, fmt) + after
    ensures if i + 1 == |items| then after == closing else after == [','] + ItemsText(items, i + 1, indent, fmt, closing)
  {
    hide T.Body;
    if i + 1 < |items| {
      ItemsTextStep(items, i + 1, indent, fmt, closing);
    }
  }

  lemma {:induction false} ItemsRead(items: seq<Value>, i: nat, indent: int, outer: int, d: nat, rest: Bytes, fmt: DoubleFormat)
    requires i < |items| && indent >= T.COMPACT && indent != 0 && outer >= T.COMPACT
    requires forall j | 0 <= j < |items| :: DoubleFree(items[j]) && FitsDepth(items[j], d)
    ensures ItemsFrom(FirstItemText(items, i, indent, fmt, T.LineBreak(outer) + ([']'] + rest)), d, items[..i])
         == Ok(Arr(items), rest)
    decreases items, |items| - i
  {
    hide *;
    var closing := T.LineBreak(outer) + ([']'] + rest);
    var after := T.ItemsFrom(items, i + 1, indent, fmt) + closing;
    var s := FirstItemText(items, i, indent, fmt, closing);
    FirstItemSplits(items, i, indent, fmt, closing, after);
    ClosingSkips(outer, ']', rest);
    assert items[..i] + [items[i]] == items[..i + 1];
    if i + 1 < |items| {
      var next := ItemsText(items, i + 1, indent, fmt, closing);
      CommaSkips(next);
      ValueReads(items[i], indent, d, after, fmt);
      ItemStep(s, d, items[..i], items[i], after);
      ItemsTextSkips(items, i + 1, indent, fmt, closing);
      ItemsSkipWs(next, d, items[..i + 1]);
      ItemsRead(items, i + 1, indent, outer, d, rest, fmt);
    } else {
      ValueReads(items[i], indent, d, after, fmt);
      ItemStep(s, d, items[..i], items[i], after);
      assert items[..i + 1] == items;
    }
  }

  lemma ItemsSkipWs(s: Bytes, d: nat, acc: seq<Value>)
    ensures ItemsFrom(s, d, acc) == ItemsFrom(SkipWs(s), d, acc)
  {
    ValueSkipsWs(s, d);
  }

  lemma ArrayStep(s: Bytes, d: nat, u: Bytes)
    requires StartsWith(s, '[') && d > 0 && u == SkipWs(s[1..])
    ensures ValueFrom(s, d) == if StartsWith(u, ']') then Ok(Arr([]), u[1..]) else ItemsFrom(u, d - 1, [])
  {
    hide ScalarFrom, ItemsFrom, MembersFrom;
  }

  lemma Bracketed(open: byte, text: Bytes, close: Bytes, shut: byte, rest: Bytes)
    ensures var s := ([open] + text + close + [shut]) + rest;
      StartsWith(s, open) && s[1..] == text + (close + ([shut] + rest))
  {
  }

  lemma ArrayText(items: seq<Value>, indent: int, rest: Bytes, fmt: DoubleFormat)
    requires indent >= T.COMPACT
    ensures var s := T.Body(Arr(items), indent, fmt) + rest;
      StartsWith(s, '[') &&
      s[1..] == if items == [] then [']'] + rest
                else ItemsText(items, 0, T.Inner(indent), fmt, T.LineBreak(indent) + ([']'] + rest))
  {
    hide ItemsText, T.Serialize, T.LineBreak, T.Inner;
    var text := T.ItemsFrom(items, 0, T.Inner(indent), fmt);
    var close := if items == [] then [] else T.LineBreak(indent);
    Bracketed('[', text, close, ']', rest);
    if items == [] {
      assert text + (close + ([']'] + rest)) == [']'] + rest;
    } else {
      ItemsTextStep(items, 0, T.Inner(indent), fmt, close + ([']'] + rest));
    }
  }

  lemma {:induction false} ArrayReads(v: Value, indent: int, d: nat, rest: Bytes, fmt: DoubleFormat)
    requires v.Arr? && indent >= T.COMPACT && DoubleFree(v) && FitsDepth(v, d)
    ensures ValueFrom(T.Body(v, indent, fmt) + rest, d) == Ok(v, rest)
    decreases v, 1
  {
    hide ValueFrom, ItemsFrom, T.Body, ItemsText, FirstItemText, SkipWs;
    var s := T.Body(v, indent, fmt) + rest;
    ArrayText(v.items, indent, rest, fmt);
    if v.items == [] {
      ClosingSkips(T.COMPACT, ']', rest);
      assert T.LineBreak(T.COMPACT) + ([']'] + rest) == [']'] + rest;
      ArrayStep(s, d, [']'] + rest);
    } else {
      var inner, closing := T.Inner(indent), T.LineBreak(indent) + ([']'] + rest);
      ItemsTextSkips(v.items, 0, inner, fmt, closing);
      ArrayStep(s, d, FirstItemText(v.items, 0, inner, fmt, closing));
      ItemsRead(v.items, 0, inner, indent, d - 1, rest, fmt);
      assert v.items[..0] == [];
    }
  }

  // ----- objects -----

  function Gap(indent: int): Bytes {
    if indent == T.COMPACT then [] else [' ']
  }

  function ValueText(v: Value, ks: seq<Bytes>, i: nat, indent: int, fmt: DoubleFormat, closing: Bytes): Bytes
    requires v.Obj? && i < |ks| && indent >= T.COMPACT && indent != 0
    requires forall j | 0 <= j < |ks| :: ks[j] in v.members
  {
    T.Body(v.members[ks[i]], indent, fmt) + (T.MembersFrom(v, ks, i + 1, indent, fmt) + closing)
  }

  function FirstMemberText(v: Value, ks: seq<Bytes>, i: nat, indent: int, fmt: DoubleFormat, closing: Bytes): Bytes
    requires v.Obj? && i < |ks| && indent >= T.COMPACT && indent != 0
    requires forall j | 0 <= j < |ks| :: ks[j] in v.members
  {
    T.Quoted(ks[i]) + ([':'] + (Gap(indent) + ValueText(v, ks, i, indent, fmt, closing)))
  }

  /** The text from the `i`-th member on, without the comma in front of it, up to the end. */
  function MembersText(v: Value, ks: seq<Bytes>, i: nat, indent: int, fmt: DoubleFormat, closing: Bytes): Bytes
    requires v.Obj? && i < |ks| && indent >= T.COMPACT && indent != 0
    requires forall j | 0 <= j < |ks| :: ks[j] in v.members
  {
    T.LineBreak(indent) + FirstMemberText(v, ks, i, indent, fmt, closing)
  }

  lemma Regroup(a: Bytes, b: Bytes, c: Bytes, e: Bytes, f: Bytes, g: Bytes, h: Bytes, z: Bytes)
    ensures (a + b + c + e + f + g + h) + z == a + (b + (c + (e + (f + (g + (h + z))))))
  {
  }

  lemma MembersTextStep(v: Value, ks: seq<Bytes>, i: nat, indent: int, fmt: DoubleFormat, closing: Bytes)
    requires v.Obj? && i < |ks| && indent >= T.COMPACT && indent != 0
    requires forall j | 0 <= j < |ks| :: ks[j] in v.members
    ensures T.MembersFrom(v, ks, i, indent, fmt) + closing
         == (if i == 0 then [] else [',']) + MembersText(v, ks, i, indent, fmt, closing)
  {
    var x := v.members[ks[i]];
    assert T.Serialize(x, indent, fmt) == T.Body(x, indent, fmt) + [] == T.Body(x, indent, fmt);
    Regroup(if i == 0 then [] else [','], T.LineBreak(indent), T.Quoted(ks[i]), [':'], Gap(indent),
            T.Body(x, indent, fmt), T.MembersFrom(v, ks, i + 1, indent, fmt), closing);
  }

  lemma KeyReads(k: Bytes, rest: Bytes)
    ensures KeyFrom(T.Quoted(k) + ([':'] + rest)) == Ok(k, rest)
  {
    var t := T.Quoted(k) + ([':'] + rest);
    assert SkipWs(t) == t;
    assert t[1..] == T.EscapeAll(k) + (['"'] + ([':'] + rest));
    EscapedStringReads(k, [':'] + rest, []);
    assert [] + k == k;
    assert SkipWs([':'] + rest) == [':'] + rest && ([':'] + rest)[1..] == rest;
  }

  lemma GapSkips(indent: int, s: Bytes)
    requires s == [] || !IsWs(s[0])
    ensures SkipWs(Gap(indent) + s) == s
  {
    if indent == T.COMPACT {
      assert Gap(indent) + s == s;
    } else {
      assert (Gap(indent) + s)[1..] == s;
    }
  }

  lemma MembersTextSkips(v: Value, ks: seq<Bytes>, i: nat, indent: int, fmt: DoubleFormat, closing: Bytes)
    requires v.Obj? && i < |ks| && indent >= T.COMPACT && indent != 0
    requires forall j | 0 <= j < |ks| :: ks[j] in v.members
    ensures SkipWs(MembersText(v, ks, i, indent, fmt, closing)) == FirstMemberText(v, ks, i, indent, fmt, closing)
    ensures !StartsWith(FirstMemberText(v, ks, i, indent, fmt, closing), '}')
  {
    assert T.Quoted(ks[i])[0] == '"';
    SkipLineBreak(indent, FirstMemberText(v, ks, i, indent, fmt, closing));
  }

  /** What the loop of `_parse_object` does once a key and its value have been read. */
  lemma MemberStep(s: Bytes, d: nat, acc: map<Bytes, Value>, k: Bytes, afterKey: Bytes, x: Value, after: Bytes)
    requires KeyFrom(s) == Ok(k, afterKey) && ValueFrom(afterKey, d) == Ok(x, after)
    ensures var t := SkipWs(after);
      (StartsWith(t, ',') ==> MembersFrom(s, d, acc) == MembersFrom(t[1..], d, acc[k := x])) &&
      (StartsWith(t, '}') ==> MembersFrom(s, d, acc) == Ok(Obj(acc[k := x]), t[1..]))
  {
  }

  lemma MembersSkipWs(s: Bytes, d: nat, acc: map<Bytes, Value>)
    ensures MembersFrom(s, d, acc) == MembersFrom(SkipWs(s), d, acc)
  {
    assert SkipWs(SkipWs(s)) == SkipWs(s);
    assert KeyFrom(s) == KeyFrom(SkipWs(s));
  }

  /** The members whose keys are among the first `i` of `ks`. */
  function FirstMembers(m: map<Bytes, Value>, ks: seq<Bytes>, i: nat): map<Bytes, Value>
    requires i <= |ks|
    requires forall j | 0 <= j < |ks| :: ks[j] in m
  {
    map k | k in ks[..i] :: m[k]
  }

  lemma FirstMembersStep(m: map<Bytes, Value>, ks: seq<Bytes>, i: nat)
    requires i < |ks|
    requires forall k :: k in ks <==> k in m
    requires forall j | 0 <= j < |ks| :: ks[j] in m
    ensures FirstMembers(m, ks, i)[ks[i] := m[ks[i]]] == FirstMembers(m, ks, i + 1)
    ensures FirstMembers(m, ks, |ks|) == m
  {
    assert ks[..i + 1] == ks[..i] + [ks[i]];
    assert ks[..|ks|] == ks;
  }

  lemma NoMembersLeft(v: Value, ks: seq<Bytes>, indent: int, fmt: DoubleFormat, closing: Bytes)
    requires v.Obj? && indent >= T.COMPACT
    requires forall j | 0 <= j < |ks| :: ks[j] in v.members
    ensures T.MembersFrom(v, ks, |ks|, indent, fmt) + closing == closing
  {
  }

  lemma FirstMemberSplits(v: Value, ks: seq<Bytes>, i: nat, indent: int, fmt: DoubleFormat, closing: Bytes, text: Bytes, after: Bytes)
    requires v.Obj? && i < |ks| && indent >= T.COMPACT && indent != 0
    requires forall j | 0 <= j < |ks| :: ks[j] in v.members
    requires text == ValueText(v, ks, i, indent, fmt, closing)
    requires after == T.MembersFrom(v, ks, i + 1, indent, fmt) + closing
    ensures FirstMemberText(v, ks, i, indent, fmt, closing) == T.Quoted(ks[i]) + ([':'] + (Gap(indent) + text))
    ensures text == T.Body(v.members[ks[i]], indent, fmt) + after
    ensures if i + 1 == |ks| then after == closing else after == [','] + MembersText(v, ks, i + 1, indent, fmt, closing)
  {
    hide T.Body, T.Quoted, T.MembersFrom, MembersText, Gap;
    if i + 1 < |ks| {
      MembersTextStep(v, ks, i + 1, indent, fmt, closing);
    } else {
      NoMembersLeft(v, ks, indent, fmt, closing);
    }
  }

  lemma GapValueReads(v: Value, indent: int, d: nat, text: Bytes, after: Bytes, fmt: DoubleFormat)
    requires indent >= T.COMPACT && DoubleFree(v) && text == T.Body(v, indent, fmt) + after
    requires ValueFrom(text, d) == Ok(v, after)
    ensures ValueFrom(Gap(indent) + text, d) == Ok(v, after)
  {
    hide *;
    BodyStarts(v, indent, fmt);
    GapSkips(indent, text);
    ValueSkipsWs(Gap(indent) + text, d);
  }

  lemma {:induction false} MembersRead(v: Value, ks: seq<Bytes>, i: nat, indent: int, outer: int, d: nat, rest: Bytes, fmt: DoubleFormat)
    requires v.Obj? && i < |ks| && indent >= T.COMPACT && indent != 0 && outer >= T.COMPACT
    requires forall k :: k in ks <==> k in v.members
    requires forall j | 0 <= j < |ks| :: ks[j] in v.members
    requires forall k | k in v.members :: DoubleFree(v.members[k]) && FitsDepth(v.members[k], d)
    ensures MembersFrom(FirstMemberText(v, ks, i, indent, fmt, T.LineBreak(outer) + (['}'] + rest)), d, FirstMembers(v.members, ks, i))
         == Ok(v, rest)
    decreases v, 0, |ks| - i
  {
    hide *;
    var closing := T.LineBreak(outer) + (['}'] + rest);
    var x := v.members[ks[i]];
    var after := T.MembersFrom(v, ks, i + 1, indent, fmt) + closing;
    var text := ValueText(v, ks, i, indent, fmt, closing);
    var s := FirstMemberText(v, ks, i, indent, fmt, closing);
    var before := FirstMembers(v.members, ks, i);
    FirstMemberSplits(v, ks, i, indent, fmt, closing, text, after);
    ClosingSkips(outer, '}', rest);
    FirstMembersStep(v.members, ks, i);
    KeyReads(ks[i], Gap(indent) + text);
    if i + 1 < |ks| {
      var next := MembersText(v, ks, i + 1, indent, fmt, closing);
      CommaSkips(next);
      ValueReads(x, indent, d, after, fmt);
      GapValueReads(x, indent, d, text, after, fmt);
      MemberStep(s, d, before, ks[i], Gap(indent) + text, x, after);
      MembersTextSkips(v, ks, i + 1, indent, fmt, closing);
      MembersSkipWs(next, d, FirstMembers(v.members, ks, i + 1));
      MembersRead(v, ks, i + 1, indent, outer, d, rest, fmt);
    } else {
      ValueReads(x, indent, d, after, fmt);
      GapValueReads(x, indent, d, text, after, fmt);
      MemberStep(s, d, before, ks[i], Gap(indent) + text, x, after);
    }
  }

  lemma ObjectStep(s: Bytes, d: nat, u: Bytes)
    requires StartsWith(s, '{') && d > 0 && u == SkipWs(s[1..])
    ensures ValueFrom(s, d) == if StartsWith(u, '}') then Ok(Obj(map[]), u[1..]) else MembersFrom(u, d, map[])
  {
    hide ScalarFrom, ItemsFrom, MembersFrom;
  }

  lemma BodyOfObject(v: Value, ks: seq<Bytes>, indent: int, fmt: DoubleFormat)
    requires v.Obj? && indent >= T.COMPACT && ks == T.KeyOrder(v.members)
    ensures T.Body(v, indent, fmt)
         == ['{'] + T.MembersFrom(v, ks, 0, T.Inner(indent), fmt) + (if ks == [] then [] else T.LineBreak(indent)) + ['}']
  {
    hide T.KeyOrder, T.MembersFrom, T.Serialize, T.LineBreak, T.Inner;
  }

  lemma ObjectText(v: Value, ks: seq<Bytes>, indent: int, rest: Bytes, fmt: DoubleFormat)
    requires v.Obj? && indent >= T.COMPACT && ks == T.KeyOrder(v.members)
    ensures var s := T.Body(v, indent, fmt) + rest;
      StartsWith(s, '{') &&
      s[1..] == if ks == [] then ['}'] + rest
                else MembersText(v, ks, 0, T.Inner(indent), fmt, T.LineBreak(indent) + (['}'] + rest))
  {
    hide *;
    var text := T.MembersFrom(v, ks, 0, T.Inner(indent), fmt);
    var close := if ks == [] then [] else T.LineBreak(indent);
    BodyOfObject(v, ks, indent, fmt);
    Bracketed('{', text, close, '}', rest);
    if ks == [] {
      NoMembersLeft(v, ks, T.Inner(indent), fmt, close + (['}'] + rest));
      assert close + (['}'] + rest) == ['}'] + rest;
    } else {
      MembersTextStep(v, ks, 0, T.Inner(indent), fmt, close + (['}'] + rest));
    }
  }

  lemma {:induction false} ObjectReads(v: Value, indent: int, d: nat, rest: Bytes, fmt: DoubleFormat)
    requires v.Obj? && indent >= T.COMPACT && DoubleFree(v) && FitsDepth(v, d)
    ensures ValueFrom(T.Body(v, indent, fmt) + rest, d) == Ok(v, rest)
    decreases v, 1
  {
    hide ValueFrom, MembersFrom, T.Body, MembersText, FirstMemberText, SkipWs, T.KeyOrder;
    var s := T.Body(v, indent, fmt) + rest;
    var ks := T.KeyOrder(v.members);
    ObjectText(v, ks, indent, rest, fmt);
    if ks == [] {
      ClosingSkips(T.COMPACT, '}', rest);
      assert T.LineBreak(T.COMPACT) + (['}'] + rest) == ['}'] + rest;
      ObjectStep(s, d, ['}'] + rest);
    } else {
      var inner, closing := T.Inner(indent), T.LineBreak(indent) + (['}'] + rest);
      MembersTextSkips(v, ks, 0, inner, fmt, closing);
      ObjectStep(s, d, FirstMemberText(v, ks, 0, inner, fmt, closing));
      MembersRead(v, ks, 0, inner, indent, d, rest, fmt);
      assert FirstMembers(v.members, ks, 0) == map[];
    }
  }
}
