/** picojson's recursive-descent parser over the push-back stream, held to `JsonGrammar`. */
module JsonParser {
  import opened ByteStrings
  import opened JsonValue
  import G = JsonGrammar
  import opened JsonInput
  import Utf8

  /** `_parse_quadhex`: the number, or -1. */
  method ParseQuadHex(input: Input) returns (n: int)
    requires input.Valid()
    modifies input
    ensures input.Valid()
    ensures match G.QuadHex(old(input.Rest()))
      case Ok(u, rest) => n == u && input.Rest() == rest
      case Fail => n == -1
  {
    hide Got, Ungot, Newlines, Input.Lag, G.QuadHexFrom, G.HexCount;
    G.HexCountZero();
    var u: nat := 0;
    for i := 0 to 4
      invariant input.Valid() && u < G.HexCount(i)
      invariant G.QuadHexFrom(input.Rest(), i, u) == G.QuadHex(old(input.Rest()))
    {
      ghost var s := input.Rest();
      G.QuadHexStep(s, i, u);
      var hex := input.GetC();
      if hex == -1 {
        return -1;
      }
      if '0' as int <= hex <= '9' as int {
        hex := hex - '0' as int;
      } else if 'A' as int <= hex <= 'F' as int {
        hex := hex - ('A' as int - 0xa);
      } else if 'a' as int <= hex <= 'f' as int {
        hex := hex - ('a' as int - 0xa);
      } else {
        input.UngetC();
        return -1;
      }
      assert G.HexValue(s[0]) == Some(hex);
      u := u * 16 + hex;
    }
    G.QuadHexStep(input.Rest(), 4, u);
    return u;
  }

  /** The end of `_parse_codepoint`: one to four bytes are pushed back. */
  method PushUtf8(out: Bytes, u: nat) returns (appended: Bytes)
    requires u <= 0x10ffff
    ensures appended == out + Utf8.Encode(u)
  {
    appended := out;
    if u < 0x80 {
      appended := appended + [u as char];
    } else {
      if u < 0x800 {
        appended := appended + [(0xc0 + u / 64) as char];
      } else {
        if u < 0x10000 {
          appended := appended + [(0xe0 + u / 4096) as char];
        } else {
          appended := appended + [(0xf0 + u / 262144) as char];
          appended := appended + [(0x80 + u / 4096 % 64) as char];
        }
        appended := appended + [(0x80 + u / 64 % 64) as char];
      }
      appended := appended + [(0x80 + u % 64) as char];
    }
  }

  /** The second half of a surrogate pair: the number its escape spells, or -1. */
  method ParseSecondUnit(input: Input) returns (second: int)
    requires input.Valid()
    modifies input
    ensures input.Valid()
    ensures match G.SecondUnit(old(input.Rest()))
      case Ok(u, rest) => second == u && input.Rest() == rest
      case Fail => second == -1
  {
    hide G.QuadHex, Got, Ungot, Newlines, Input.Lag;
    ghost var t := input.Rest();
    var ch := input.GetC();
    if ch != '\\' as int {
      input.UngetC();
      return -1;
    }
    ch := input.GetC();
    if ch != 'u' as int {
      input.UngetC();
      return -1;
    }
    assert t[1..][1..] == t[2..];
    second := ParseQuadHex(input);
  }

  /** `_parse_codepoint`: `appended` is `out` with the character pushed back onto it. */
  method ParseCodepoint(out: Bytes, input: Input) returns (ok: bool, appended: Bytes)
    requires input.Valid()
    modifies input
    ensures input.Valid()
    ensures match G.Codepoint(old(input.Rest()))
      case Ok(b, rest) => ok && appended == out + b && input.Rest() == rest
      case Fail => !ok
  {
    hide G.QuadHexFrom, G.SecondUnit, Utf8.Encode;
    appended := out;
    var u := ParseQuadHex(input);
    if u == -1 {
      return false, appended;
    }
    if 0xd800 <= u <= 0xdfff {
      if 0xdc00 <= u {
        return false, appended;
      }
      var second := ParseSecondUnit(input);
      if !(0xdc00 <= second <= 0xdfff) {
        return false, appended;
      }
      u := (u - 0xd800) * 0x400 + (second - 0xdc00) % 0x400 + 0x10000;
    }
    appended := PushUtf8(appended, u);
    return true, appended;
  }

  /** The part of `_parse_string` behind a backslash. */
  method ParseEscape(out: Bytes, input: Input) returns (ok: bool, appended: Bytes)
    requires input.Valid()
    modifies input
    ensures input.Valid()
    ensures match G.EscapeFrom(old(input.Rest()))
      case Ok(b, rest) => ok && appended == out + b && input.Rest() == rest
      case Fail => !ok
  {
    hide G.Codepoint, Got, Ungot, Newlines, Input.Lag;
    appended := out;
    var ch := input.GetC();
    if ch == -1 {
      return false, appended;
    }
    var mapped := G.Unescape(ch as char);
    if mapped.Some? {
      return true, appended + [mapped.value];
    } else if ch == 'u' as int {
      ok, appended := ParseCodepoint(appended, input);
    } else {
      return false, appended;
    }
  }

  /** `_parse_string`, behind the opening quote. */
  method ParseString(input: Input) returns (ok: bool, out: Bytes)
    requires input.Valid()
    modifies input
    ensures input.Valid()
    ensures match G.StringFrom(old(input.Rest()), [])
      case Ok(s, rest) => ok && out == s && input.Rest() == rest
      case Fail => !ok
  {
    hide G.EscapeFrom, G.StringFrom, Got, Ungot, Newlines, Input.Lag;
    out := [];
    while true
      invariant input.Valid()
      invariant G.StringFrom(input.Rest(), out) == G.StringFrom(old(input.Rest()), [])
      decreases |input.Rest()|
    {
      G.StringStep(input.Rest(), out);
      var ch := input.GetC();
      if ch < ' ' as int {
        input.UngetC();
        return false, out;
      } else if ch == '"' as int {
        return true, out;
      } else if ch == '\\' as int {
        ok, out := ParseEscape(out, input);
        if !ok {
          return false, out;
        }
      } else {
        out := out + [ch as char];
      }
    }
  }

  lemma NumberSpanStep(s: Bytes)
    ensures G.NumberSpan(s) == if G.StartsLikeNumber(s) then 1 + G.NumberSpan(s[1..]) else 0
  {
  }

  lemma TakeOne(s: Bytes, n: nat)
    requires n <= |s|
    ensures n < |s| ==> s[n..][0] == s[n] && s[n..][1..] == s[n + 1..] && s[..n] + [s[n]] == s[..n + 1]
    ensures n == |s| ==> s[n..] == []
  {
  }

  /** `_parse_number`: the longest run of number characters. */
  method ParseNumber(input: Input) returns (numStr: Bytes)
    requires input.Valid()
    modifies input
    ensures input.Valid()
    ensures var n := G.NumberSpan(old(input.Rest()));
      numStr == old(input.Rest())[..n] && input.Rest() == old(input.Rest())[n..]
  {
    hide Got, Ungot, Newlines, Input.Lag, G.NumberSpan;
    numStr := [];
    ghost var whole := input.Rest();
    while true
      invariant input.Valid()
      invariant |numStr| <= |whole| && numStr == whole[..|numStr|] && input.Rest() == whole[|numStr|..]
      invariant G.NumberSpan(whole) == |numStr| + G.NumberSpan(input.Rest())
      decreases |input.Rest()|
    {
      ghost var before := input.Rest();
      NumberSpanStep(before);
      TakeOne(whole, |numStr|);
      var ch := input.GetC();
      if ('0' as int <= ch <= '9' as int) || ch == '+' as int || ch == '-' as int || ch == 'e' as int || ch == 'E' as int
         || ch == '.' as int {
        numStr := numStr + [ch as char];
      } else {
        input.UngetC();
        assert input.Rest() == before;
        break;
      }
    }
  }

  /** `default_parse_context`: where the value goes, and how much depth is left. */
  class Context {
    var out: Value
    var depths: nat

    constructor (depths: nat)
      ensures this.depths == depths && out == Null
    {
      this.out, this.depths := Null, depths;
    }

    method ParseArrayStart() returns (ok: bool)
      modifies this
      ensures ok == (old(depths) > 0)
      ensures ok ==> depths == old(depths) - 1 && out == Arr([])
    {
      if depths == 0 {
        return false;
      }
      depths := depths - 1;
      out := Arr([]);
      return true;
    }

    method ParseArrayItem(input: Input) returns (ok: bool)
      requires input.Valid() && out.Arr?
      modifies this, input
      ensures input.Valid() && depths == old(depths)
      ensures match G.ValueFrom(old(input.Rest()), depths)
        case Ok(x, rest) => ok && out == Arr(old(out.items) + [x]) && input.Rest() == rest
        case Fail => !ok
      decreases |input.text| - input.Pos(), 1
    {
      var ctx := new Context(depths);
      ok := Parse(ctx, input);
      if ok {
        out := Arr(out.items + [ctx.out]);
      }
    }

    method ParseArrayStop()
      modifies this
      ensures depths == old(depths) + 1 && out == old(out)
    {
      depths := depths + 1;
    }

    /** Unlike an array, an object takes nothing from the budget ... */
    method ParseObjectStart() returns (ok: bool)
      modifies this
      ensures ok == (old(depths) > 0) && depths == old(depths)
      ensures ok ==> out == Obj(map[])
    {
      if depths == 0 {
        return false;
      }
      out := Obj(map[]);
      return true;
    }

    method ParseObjectItem(input: Input, key: Bytes) returns (ok: bool)
      requires input.Valid() && out.Obj?
      modifies this, input
      ensures input.Valid() && depths == old(depths)
      ensures match G.ValueFrom(old(input.Rest()), depths)
        case Ok(x, rest) => ok && out == Obj(old(out.members)[key := x]) && input.Rest() == rest
        case Fail => !ok
      decreases |input.text| - input.Pos(), 1
    {
      var ctx := new Context(depths);
      ok := Parse(ctx, input);
      if ok {
        out := Obj(out.members[key := ctx.out]);
      }
    }

    /** ... but gives a unit back all the same, so its context ends one above where it began. No
        context is used again after its value, so no other value is affected. */
    method ParseObjectStop()
      modifies this
      ensures depths == old(depths) + 1 && out == old(out)
    {
      depths := depths + 1;
    }
  }

  /** `_parse_array`, behind the opening bracket. */
  method ParseArray(ctx: Context, input: Input) returns (ok: bool)
    requires input.Valid()
    modifies ctx, input
    ensures input.Valid()
    ensures old(ctx.depths) == 0 ==> !ok
    ensures old(ctx.depths) > 0 ==>
      var u := G.SkipWs(old(input.Rest()));
      match (if G.StartsWith(u, ']') then G.Ok(Arr([]), u[1..]) else G.ItemsFrom(u, old(ctx.depths) - 1, []))
      case Ok(v, rest) => ok && ctx.out == v && input.Rest() == rest && ctx.depths == old(ctx.depths)
      case Fail => !ok
    decreases |input.text| - input.Pos(), 2
  {
    hide Newlines, Input.Lag, Expected, Skipped, G.ValueFrom, G.SkipWs, G.ItemsFrom;
    ok := ctx.ParseArrayStart();
    if !ok {
      return false;
    }
    ghost var d := ctx.depths;
    var empty := input.Expect(']');
    if empty {
      ctx.ParseArrayStop();
      return true;
    }
    ghost var u := input.Rest();
    var more := true;
    while more
      invariant input.Valid() && ctx.depths == d && ctx.out.Arr?
      invariant |input.Rest()| <= |old(input.Rest())|
      invariant if more then G.ItemsFrom(u, d, []) == G.ItemsFrom(input.Rest(), d, ctx.out.items)
        else G.ItemsFrom(u, d, []) ==
             var t := G.SkipWs(input.Rest());
             if G.StartsWith(t, ']') then G.Ok(ctx.out, t[1..]) else G.Fail
      decreases more, |input.Rest()|
    {
      G.ItemsStep(input.Rest(), d, ctx.out.items);
      var itemOk := ctx.ParseArrayItem(input);
      if !itemOk {
        return false;
      }
      G.SkipWsTwice(input.Rest());
      more := input.Expect(',');
    }
    ok := input.Expect(']');
    if ok {
      ctx.ParseArrayStop();
    }
  }

  /** `_parse_object`, behind the opening brace. */
  method ParseObject(ctx: Context, input: Input) returns (ok: bool)
    requires input.Valid()
    modifies ctx, input
    ensures input.Valid()
    ensures old(ctx.depths) == 0 ==> !ok
    ensures old(ctx.depths) > 0 ==>
      var u := G.SkipWs(old(input.Rest()));
      match (if G.StartsWith(u, '}') then G.Ok(Obj(map[]), u[1..]) else G.MembersFrom(u, old(ctx.depths), map[]))
      case Ok(v, rest) => ok && ctx.out == v && input.Rest() == rest && ctx.depths == old(ctx.depths) + 1
      case Fail => !ok
    decreases |input.text| - input.Pos(), 2
  {
    hide Newlines, Input.Lag, Expected, G.ValueFrom, G.KeyFrom;
    ok := ctx.ParseObjectStart();
    if !ok {
      return false;
    }
    ghost var d := ctx.depths;
    var empty := input.Expect('}');
    if empty {
      ctx.ParseObjectStop();
      return true;
    }
    ghost var u := input.Rest();
    var more := true;
    while more
      invariant input.Valid() && ctx.depths == d && ctx.out.Obj?
      invariant |input.Rest()| <= |old(input.Rest())|
      invariant if more then G.MembersFrom(u, d, map[]) == G.MembersFrom(input.Rest(), d, ctx.out.members)
        else G.MembersFrom(u, d, map[]) ==
             var t := G.SkipWs(input.Rest());
             if G.StartsWith(t, '}') then G.Ok(ctx.out, t[1..]) else G.Fail
      decreases more, |input.Rest()|
    {
      var keyOk, key := ParseKey(input);
      if !keyOk {
        return false;
      }
      var itemOk := ctx.ParseObjectItem(input, key);
      if !itemOk {
        return false;
      }
      more := input.Expect(',');
    }
    ok := input.Expect('}');
    if ok {
      ctx.ParseObjectStop();
    }
  }

  /** The quoted key and the colon. */
  method ParseKey(input: Input) returns (ok: bool, key: Bytes)
    requires input.Valid()
    modifies input
    ensures input.Valid()
    ensures match G.KeyFrom(old(input.Rest()))
      case Ok(k, rest) => ok && key == k && input.Rest() == rest
      case Fail => !ok
  {
    key := [];
    ok := input.Expect('"');
    if ok {
      ok, key := ParseString(input);
      if ok {
        ok := input.Expect(':');
      }
    }
  }

  /** The number cases of `_parse`; the first character has been given back. */
  method ParseNumberValue(ctx: Context, input: Input) returns (ok: bool)
    requires input.Valid()
    modifies ctx, input
    ensures input.Valid()
    ensures var n := G.NumberSpan(old(input.Rest()));
      match G.NumberOf(old(input.Rest())[..n])
      case Some(v) => ok && ctx.out == v && input.Rest() == old(input.Rest())[n..]
      case None => !ok
    ensures ctx.depths == old(ctx.depths)
  {
    var numStr := ParseNumber(input);
    if numStr == [] {
      return false;
    }
    var ival := G.Int64Of(numStr);
    if ival.Some? {
      ctx.out := Int(ival.value);
      return true;
    }
    if G.IsDecimalLiteral(numStr) && !G.RoundsToInfinity(numStr) {
      ctx.out := Float(numStr);
      return true;
    }
    return false;
  }

  /** The keyword cases of `_parse`, behind the first character. */
  method ParseKeyword(ctx: Context, input: Input, tail: Bytes, v: Value) returns (ok: bool)
    requires input.Valid() && Ascii(tail)
    modifies ctx, input
    ensures input.Valid()
    ensures match G.Keyword(old(input.Rest()), tail, v)
      case Ok(x, rest) => ok && ctx.out == x && input.Rest() == rest
      case Fail => !ok
  {
    hide Newlines, Input.Lag, Matched, Matches, Ascii;
    ok := input.Match(tail);
    if ok {
      ctx.out := v;
    }
  }

  /** The cases of `_parse` that do not recurse; `ch`, the first of `t`, has been read. */
  method ParseScalar(ctx: Context, input: Input, ch: int, ghost t: Bytes) returns (ok: bool)
    requires input.Valid() && input.text[input.cur..] == t
    requires if t == [] then ch == -1 else ch == t[0] as int && input.Rest() == t[1..]
    modifies ctx, input
    ensures input.Valid()
    ensures match (if t == [] then G.Fail else G.ScalarFrom(t))
      case Ok(v, rest) => ch != '[' as int && ch != '{' as int && ok && ctx.out == v && input.Rest() == rest
      case Fail => !ok
  {
    hide G.StringFrom, G.NumberOf, G.NumberSpan, G.Keyword, Got, Ungot, Newlines, Input.Lag;
    if ch == 'n' as int {
      ok := ParseKeyword(ctx, input, "ull", Null);
    } else if ch == 'f' as int {
      ok := ParseKeyword(ctx, input, "alse", Bool(false));
    } else if ch == 't' as int {
      ok := ParseKeyword(ctx, input, "rue", Bool(true));
    } else if ch == '"' as int {
      var s: Bytes;
      ok, s := ParseString(input);
      ctx.out := Str(s);
    } else if ('0' as int <= ch <= '9' as int) || ch == '-' as int {
      input.UngetC();
      ok := ParseNumberValue(ctx, input);
    } else {
      input.UngetC();
      ok := false;
    }
  }

  /** `_parse`. */
  method Parse(ctx: Context, input: Input) returns (ok: bool)
    requires input.Valid()
    modifies ctx, input
    ensures input.Valid()
    ensures match G.ValueFrom(old(input.Rest()), old(ctx.depths))
      case Ok(v, rest) => ok && ctx.out == v && input.Rest() == rest
      case Fail => !ok
    decreases |input.text| - input.Pos(), 0
  {
    hide G.ScalarFrom, G.SkipWs, G.ItemsFrom, G.MembersFrom, Got, Ungot, Newlines, Input.Lag, Skipped;
    input.SkipWs();
    ghost var t := input.Rest();
    var ch := input.GetC();
    if ch == '[' as int {
      ok := ParseArray(ctx, input);
    } else if ch == '{' as int {
      ok := ParseObject(ctx, input);
    } else {
      ok := ParseScalar(ctx, input, ch, t);
    }
  }

  /** `picojson::parse(out, s)`; `ok` says that the returned error text is empty. */
  method ParseText(text: Bytes) returns (ok: bool, value: Value)
    ensures ok == G.Parse(text).Some?
    ensures ok ==> value == G.Parse(text).value
  {
    var input := new Input(text);
    assert text[0..] == text;
    var ctx := new Context(G.DEFAULT_MAX_DEPTHS);
    ok := Parse(ctx, input);
    value := ctx.out;
  }
}
