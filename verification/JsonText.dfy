/** The text picojson prints for a value: `to_str`, `serialize_str` and `_serialize`. */
module JsonText {
  import opened ByteStrings
  import opened JsonValue

  const INDENT_WIDTH: nat := 2

  /** The `indent` argument that asks for compact output. */
  const COMPACT: int := -1

  function HexDigit(n: nat): byte
    requires n < 16
  {
    if n < 10 then (n + '0' as int) as char else (n - 10 + 'a' as int) as char
  }

  /** `serialize_str_char`. */
  function EscapeByte(c: byte): Bytes {
    if c == '"' then "\\\""
    else if c == '\\' then "\\\\"
    else if c == '/' then "\\/"
    else if c as int == 8 then "\\b"
    else if c as int == 12 then "\\f"
    else if c == '\n' then "\\n"
    else if c == '\r' then "\\r"
    else if c == '\t' then "\\t"
    else if c as int < 0x20 || c as int == 0x7f then
      ['\\', 'u', '0', '0', HexDigit(c as int / 16), HexDigit(c as int % 16)]
    else [c]
  }

  function EscapeAll(s: Bytes): Bytes {
    if s == [] then [] else EscapeByte(s[0]) + EscapeAll(s[1..])
  }

  function Quoted(s: Bytes): Bytes {
    ['"'] + EscapeAll(s) + ['"']
  }

  function Digit(n: nat): byte
    requires n < 10
  {
    (n + '0' as int) as char
  }

  function Decimal(n: nat): Bytes {
    if n < 10 then [Digit(n)] else Decimal(n / 10) + [Digit(n % 10)]
  }

  /** `PRId64`. */
  function IntText(i: int): Bytes {
    if i < 0 then ['-'] + Decimal(-i) else Decimal(i)
  }

  /** `value::to_str`. */
  function ToStr(v: Value, fmt: DoubleFormat): Bytes {
    match v
    case Null => "null"
    case Bool(b) => if b then "true" else "false"
    case Int(i) => IntText(i)
    case Float(literal) => fmt(literal)
    case Str(s) => s
    case Arr(_) => "array"
    case Obj(_) => "object"
  }

  function Spaces(n: nat): Bytes {
    seq(n, _ => ' ')
  }

  /** `_indent`, preceded by the test for compact mode that guards each call of it. */
  function LineBreak(indent: int): Bytes
    requires indent >= COMPACT
  {
    if indent == COMPACT then [] else ['\n'] + Spaces(indent * INDENT_WIDTH)
  }

  function Inner(indent: int): (r: int)
    requires indent >= COMPACT
    ensures r >= COMPACT && r != 0
  {
    if indent == COMPACT then COMPACT else indent + 1
  }

  /** The loop over an array from its `i`-th item on; `indent` is already the inner one. */
  function ItemsFrom(items: seq<Value>, i: nat, indent: int, fmt: DoubleFormat): Bytes
    requires i <= |items| && indent >= COMPACT
    decreases items, |items| - i
  {
    if i == |items| then []
    else
      (if i == 0 then [] else [',']) + LineBreak(indent) + Serialize(items[i], indent, fmt)
      + ItemsFrom(items, i + 1, indent, fmt)
  }

  /** The loop over an object whose keys are visited in the order `ks`, from the `i`-th on. */
  function MembersFrom(v: Value, ks: seq<Bytes>, i: nat, indent: int, fmt: DoubleFormat): Bytes
    requires v.Obj? && i <= |ks| && indent >= COMPACT
    requires forall j | 0 <= j < |ks| :: ks[j] in v.members
    decreases v, 0, |ks| - i
  {
    if i == |ks| then []
    else
      (if i == 0 then [] else [',']) + LineBreak(indent) + Quoted(ks[i]) + [':']
      + (if indent == COMPACT then [] else [' ']) + Serialize(v.members[ks[i]], indent, fmt)
      + MembersFrom(v, ks, i + 1, indent, fmt)
  }

  /** The order in which the members are visited. */
  function KeyOrder(members: map<Bytes, Value>): (ks: seq<Bytes>)
    ensures forall k :: k in ks <==> k in members
    ensures forall j | 0 <= j < |ks| :: ks[j] in members
    ensures ks == [] <==> members == map[]
  {
    assert members != map[] ==> exists k :: k in members;
    SortedKeys(members.Keys)
  }

  /** `_serialize` without the newline that ends top-level prettified output. */
  function Body(v: Value, indent: int, fmt: DoubleFormat): Bytes
    requires indent >= COMPACT
    decreases v, 1
  {
    match v
    case Str(s) => Quoted(s)
    case Arr(items) =>
      ['['] + ItemsFrom(items, 0, Inner(indent), fmt)
      + (if items == [] then [] else LineBreak(indent)) + [']']
    case Obj(members) =>
      ['{'] + MembersFrom(v, KeyOrder(members), 0, Inner(indent), fmt)
      + (if members == map[] then [] else LineBreak(indent)) + ['}']
    case _ => ToStr(v, fmt)
  }

  /** `_serialize`. */
  function Serialize(v: Value, indent: int, fmt: DoubleFormat): Bytes
    requires indent >= COMPACT
    decreases v, 2
  {
    Body(v, indent, fmt) + (if indent == 0 then ['\n'] else [])
  }
}
