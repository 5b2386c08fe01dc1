/** `_serialize` as it runs: a recursion that appends to an output iterator. `out` is the output so
    far, and each method returns it with its own text appended. */
module JsonPrinter {
  import opened ByteStrings
  import opened JsonValue
  import T = JsonText

  lemma EscapeStep(s: Bytes, i: nat)
    requires i < |s|
    ensures T.EscapeAll(s[i..]) == T.EscapeByte(s[i]) + T.EscapeAll(s[i + 1..])
  {
    hide T.EscapeByte;
    assert s[i..][1..] == s[i + 1..];
  }

  /** `serialize_str`. */
  method PrintString(s: Bytes, out: Bytes) returns (r: Bytes)
    ensures r == out + T.Quoted(s)
  {
    hide T.EscapeByte;
    r := out + ['"'];
    ghost var start := r;
    assert s[0..] == s;
    for i := 0 to |s|
      invariant r + T.EscapeAll(s[i..]) == start + T.EscapeAll(s)
    {
      hide T.EscapeAll;
      EscapeStep(s, i);
      ghost var before := r;
      r := r + T.EscapeByte(s[i]);
      assert r + T.EscapeAll(s[i + 1..]) == before + (T.EscapeByte(s[i]) + T.EscapeAll(s[i + 1..]));
    }
    assert r == start + T.EscapeAll(s);
    r := r + ['"'];
    assert r == out + (['"'] + T.EscapeAll(s) + ['"']);
  }

  /** `_indent`. */
  method PrintIndent(indent: nat, out: Bytes) returns (r: Bytes)
    ensures r == out + T.LineBreak(indent)
  {
    r := out + ['\n'];
    for i := 0 to indent * T.INDENT_WIDTH
      invariant r == out + (['\n'] + T.Spaces(i))
    {
      assert T.Spaces(i) + [' '] == T.Spaces(i + 1);
      r := r + [' '];
    }
  }

  method PrintLineBreak(indent: int, out: Bytes) returns (r: Bytes)
    requires indent >= T.COMPACT
    ensures r == out + T.LineBreak(indent)
  {
    r := out;
    if indent != T.COMPACT {
      r := PrintIndent(indent, r);
    }
  }

  /** The loop over an array. */
  method PrintItems(items: seq<Value>, indent: int, fmt: DoubleFormat, out: Bytes) returns (r: Bytes)
    requires indent >= T.COMPACT
    ensures r == out + T.ItemsFrom(items, 0, indent, fmt)
    decreases items, 0
  {
    hide T.Serialize, T.LineBreak;
    r := out;
    for i := 0 to |items|
      invariant r + T.ItemsFrom(items, i, indent, fmt) == out + T.ItemsFrom(items, 0, indent, fmt)
    {
      ghost var before := r;
      if i != 0 {
        r := r + [','];
      }
      r := PrintLineBreak(indent, r);
      r := Print(items[i], indent, fmt, r);
      assert r == before + ((if i == 0 then [] else [',']) + T.LineBreak(indent) + T.Serialize(items[i], indent, fmt));
    }
  }

  lemma Regroup(z: Bytes, a: Bytes, b: Bytes, c: Bytes, d: Bytes, e: Bytes, f: Bytes, tail: Bytes)
    ensures (z + a + b + c + d + e + f) + tail == z + (a + b + c + d + e + f + tail)
  {
  }

  /** The loop over an object, in key order. */
  method PrintMembers(v: Value, ks: seq<Bytes>, indent: int, fmt: DoubleFormat, out: Bytes) returns (r: Bytes)
    requires v.Obj? && indent >= T.COMPACT
    requires forall j | 0 <= j < |ks| :: ks[j] in v.members
    ensures r == out + T.MembersFrom(v, ks, 0, indent, fmt)
    decreases v, 0
  {
    hide T.Serialize, T.LineBreak, T.Quoted;
    r := out;
    for i := 0 to |ks|
      invariant r + T.MembersFrom(v, ks, i, indent, fmt) == out + T.MembersFrom(v, ks, 0, indent, fmt)
    {
      ghost var before := r;
      ghost var comma: Bytes := if i == 0 then [] else [','];
      ghost var gap: Bytes := if indent == T.COMPACT then [] else [' '];
      if i != 0 {
        r := r + [','];
      }
      assert r == before + comma;
      r := PrintLineBreak(indent, r);
      r := PrintString(ks[i], r);
      r := r + [':'];
      if indent != T.COMPACT {
        r := r + [' '];
      }
      assert r == before + comma + T.LineBreak(indent) + T.Quoted(ks[i]) + [':'] + gap;
      r := Print(v.members[ks[i]], indent, fmt, r);
      Regroup(before, comma, T.LineBreak(indent), T.Quoted(ks[i]), [':'], gap,
              T.Serialize(v.members[ks[i]], indent, fmt), T.MembersFrom(v, ks, i + 1, indent, fmt));
    }
  }

  method PrintArray(items: seq<Value>, indent: int, fmt: DoubleFormat, out: Bytes) returns (r: Bytes)
    requires indent >= T.COMPACT
    ensures r == out + T.Body(Arr(items), indent, fmt)
    decreases items, 1
  {
    hide T.ItemsFrom, T.LineBreak, T.Inner;
    ghost var text := T.ItemsFrom(items, 0, T.Inner(indent), fmt);
    ghost var close := if items == [] then [] else T.LineBreak(indent);
    r := PrintItems(items, T.Inner(indent), fmt, out + ['[']);
    if items != [] {
      r := PrintLineBreak(indent, r);
    }
    r := r + [']'];
    assert r == out + (['['] + text + close + [']']);
  }

  method PrintObject(v: Value, indent: int, fmt: DoubleFormat, out: Bytes) returns (r: Bytes)
    requires v.Obj? && indent >= T.COMPACT
    ensures r == out + T.Body(v, indent, fmt)
    decreases v, 1
  {
    hide T.MembersFrom, T.LineBreak, T.Inner, T.KeyOrder;
    ghost var text := T.MembersFrom(v, T.KeyOrder(v.members), 0, T.Inner(indent), fmt);
    ghost var close := if v.members == map[] then [] else T.LineBreak(indent);
    r := PrintMembers(v, T.KeyOrder(v.members), T.Inner(indent), fmt, out + ['{']);
    if v.members != map[] {
      r := PrintLineBreak(indent, r);
    }
    r := r + ['}'];
    assert r == out + (['{'] + text + close + ['}']);
  }

  /** `_serialize`. */
  method Print(v: Value, indent: int, fmt: DoubleFormat, out: Bytes) returns (r: Bytes)
    requires indent >= T.COMPACT
    ensures r == out + T.Serialize(v, indent, fmt)
    decreases v, 2
  {
    hide T.ItemsFrom, T.MembersFrom, T.LineBreak, T.Quoted, T.KeyOrder;
    match v {
      case Str(s) => r := PrintString(s, out);
      case Arr(items) => r := PrintArray(items, indent, fmt, out);
      case Obj(members) => r := PrintObject(v, indent, fmt, out);
      case _ => r := out + T.ToStr(v, fmt);
    }
    assert r == out + T.Body(v, indent, fmt);
    if indent == 0 {
      r := r + ['\n'];
    }
    assert r == out + (T.Body(v, indent, fmt) + (if indent == 0 then ['\n'] else []));
  }
}
