/** The texts of JSON as section 2 of RFC 8259 builds them, with any white space, any way to write a
    character and repeated names, and what the parser makes of each. A tree records how one text is
    built; all it takes from `JsonGrammar` is what a byte, an escape letter and a literal mean. */
module JsonSyntax {
  import opened ByteStrings
  import opened JsonValue
  import opened G = JsonGrammar
  import JsonRoundTrip
  import JsonTheorems
  import Utf8

  /** One piece of a string: a character itself, a backslash and a letter, or `\u` and four digits. */
  datatype Char = Plain(b: byte) | Short(e: byte) | Unit(digits: Bytes)

  datatype Tree =
    | TNull | TBool(b: bool) | TNumber(literal: Bytes) | TString(chars: seq<Char>)
    | TArray(gap: Bytes, items: seq<Item>)
    | TObject(gap: Bytes, members: seq<Member>)

  /** White space stands before and after every item. */
  datatype Item = Item(before: Bytes, tree: Tree, after: Bytes)

  /** A name, the white space around it, and the member's value. */
  datatype Member = Member(before: Bytes, name: seq<Char>, colon: Bytes, value: Item)

  // ----- the text of a tree, in front of `rest` -----

  function CharText(c: Char): Bytes {
    match c
    case Plain(b) => [b]
    case Short(e) => ['\\', e]
    case Unit(digits) => ['\\', 'u'] + digits
  }

  function PutChars(chars: seq<Char>, rest: Bytes): Bytes {
    if chars == [] then rest else CharText(chars[0]) + PutChars(chars[1..], rest)
  }

  function PutString(chars: seq<Char>, rest: Bytes): Bytes {
    ['"'] + PutChars(chars, ['"'] + rest)
  }

  function Put(t: Tree, rest: Bytes): Bytes
    decreases t, 0
  {
    match t
    case TNull => "null" + rest
    case TBool(b) => (if b then "true" else "false") + rest
    case TNumber(literal) => literal + rest
    case TString(chars) => PutString(chars, rest)
    case TArray(gap, items) => ['['] + (if items == [] then gap + ([']'] + rest) else PutItems(items, [']'] + rest))
    case TObject(gap, members) => ['{'] + (if members == [] then gap + (['}'] + rest) else PutMembers(members, ['}'] + rest))
  }

  function PutItem(item: Item, rest: Bytes): Bytes
    decreases item, 0
  {
    item.before + Put(item.tree, item.after + rest)
  }

  function PutItems(items: seq<Item>, rest: Bytes): Bytes
    requires items != []
    decreases items, 1
  {
    PutItem(items[0], if |items| == 1 then rest else [','] + PutItems(items[1..], rest))
  }

  function PutMember(m: Member, rest: Bytes): Bytes
    decreases m, 0
  {
    m.before + PutString(m.name, m.colon + ([':'] + PutItem(m.value, rest)))
  }

  function PutMembers(members: seq<Member>, rest: Bytes): Bytes
    requires members != []
    decreases members, 1
  {
    PutMember(members[0], if |members| == 1 then rest else [','] + PutMembers(members[1..], rest))
  }

  lemma {:induction false} CharsInFront(chars: seq<Char>, a: Bytes, b: Bytes)
    ensures PutChars(chars, a + b) == PutChars(chars, a) + b
  {
    hide CharText;
    if chars != [] {
      CharsInFront(chars[1..], a, b);
      Regrouped(CharText(chars[0]), PutChars(chars[1..], a), b);
    }
  }

  lemma StringInFront(chars: seq<Char>, a: Bytes, b: Bytes)
    ensures PutString(chars, a + b) == PutString(chars, a) + b
  {
    hide PutChars;
    CharsInFront(chars, ['"'] + a, b);
    Regrouped(['"'], a, b);
    Regrouped(['"'], PutChars(chars, ['"'] + a), b);
  }

  /** What stands behind a tree does not change its text: `Put` is that text, concatenated. */
  lemma {:induction false} TextInFront(t: Tree, a: Bytes, b: Bytes)
    ensures Put(t, a + b) == Put(t, a) + b
    decreases t, 0
  {
    hide PutItems, PutMembers, PutString;
    match t {
      case TString(chars) => StringInFront(chars, a, b);
      case TArray(gap, items) =>
        Regrouped([']'], a, b);
        if items == [] {
          Regrouped(gap, [']'] + a, b);
          Regrouped(['['], gap + ([']'] + a), b);
        } else {
          ItemsInFront(items, [']'] + a, b);
          Regrouped(['['], PutItems(items, [']'] + a), b);
        }
      case TObject(gap, members) =>
        Regrouped(['}'], a, b);
        if members == [] {
          Regrouped(gap, ['}'] + a, b);
          Regrouped(['{'], gap + (['}'] + a), b);
        } else {
          MembersInFront(members, ['}'] + a, b);
          Regrouped(['{'], PutMembers(members, ['}'] + a), b);
        }
      case TNumber(literal) => Regrouped(literal, a, b);
      case TNull => Regrouped("null", a, b);
      case TBool(v) => Regrouped(if v then "true" else "false", a, b);
    }
  }

  lemma {:induction false} ItemInFront(item: Item, a: Bytes, b: Bytes)
    ensures PutItem(item, a + b) == PutItem(item, a) + b
    decreases item, 0
  {
    hide Put;
    TextInFront(item.tree, item.after + a, b);
    Regrouped(item.after, a, b);
    Regrouped(item.before, Put(item.tree, item.after + a), b);
  }

  lemma {:induction false} ItemsInFront(items: seq<Item>, a: Bytes, b: Bytes)
    requires items != []
    ensures PutItems(items, a + b) == PutItems(items, a) + b
    decreases items, 1
  {
    hide PutItem;
    if |items| == 1 {
      ItemInFront(items[0], a, b);
    } else {
      ItemsInFront(items[1..], a, b);
      var tail := PutItems(items[1..], a);
      ItemInFront(items[0], [','] + tail, b);
      Regrouped([','], tail, b);
    }
  }

  lemma {:induction false} MemberInFront(m: Member, a: Bytes, b: Bytes)
    ensures PutMember(m, a + b) == PutMember(m, a) + b
    decreases m, 0
  {
    hide PutItem, PutString;
    ItemInFront(m.value, a, b);
    var x := PutItem(m.value, a);
    Regrouped([':'], x, b);
    Regrouped(m.colon, [':'] + x, b);
    StringInFront(m.name, m.colon + ([':'] + x), b);
    Regrouped(m.before, PutString(m.name, m.colon + ([':'] + x)), b);
  }

  lemma {:induction false} MembersInFront(members: seq<Member>, a: Bytes, b: Bytes)
    requires members != []
    ensures PutMembers(members, a + b) == PutMembers(members, a) + b
    decreases members, 1
  {
    hide PutMember;
    if |members| == 1 {
      MemberInFront(members[0], a, b);
    } else {
      MembersInFront(members[1..], a, b);
      var tail := PutMembers(members[1..], a);
      MemberInFront(members[0], [','] + tail, b);
      Regrouped([','], tail, b);
    }
  }

  // ----- which trees there are -----

  predicate AllWs(s: Bytes) {
    forall i | 0 <= i < |s| :: IsWs(s[i])
  }

  /** A plain character is no control character, quote or backslash. */
  predicate CharOk(c: Char) {
    match c
    case Plain(b) => b >= ' ' && b != '"' && b != '\\'
    case Short(e) => Unescape(e).Some?
    case Unit(digits) => |digits| == 4 && forall i | 0 <= i < 4 :: HexValue(digits[i]).Some?
  }

  predicate CharsOk(chars: seq<Char>) {
    forall i | 0 <= i < |chars| :: CharOk(chars[i])
  }

  predicate Collected(s: Bytes) {
    forall i | 0 <= i < |s| :: IsNumberChar(s[i])
  }

  /** What the parser takes for a number: number characters behind a digit or a minus. */
  predicate NumberOk(literal: Bytes) {
    literal != [] && Collected(literal) && (IsDigit(literal[0]) || literal[0] == '-')
  }

  predicate WellFormed(t: Tree)
    decreases t, 0
  {
    match t
    case TNumber(literal) => NumberOk(literal)
    case TString(chars) => CharsOk(chars)
    case TArray(gap, items) => AllWs(gap) && ItemsOk(items)
    case TObject(gap, members) => AllWs(gap) && MembersOk(members)
    case _ => true
  }

  predicate ItemOk(item: Item)
    decreases item, 0
  {
    AllWs(item.before) && WellFormed(item.tree) && AllWs(item.after)
  }

  predicate ItemsOk(items: seq<Item>)
    decreases items, 1
  {
    items == [] || (ItemOk(items[0]) && ItemsOk(items[1..]))
  }

  predicate MemberOk(m: Member)
    decreases m, 0
  {
    AllWs(m.before) && CharsOk(m.name) && AllWs(m.colon) && ItemOk(m.value)
  }

  predicate MembersOk(members: seq<Member>)
    decreases members, 1
  {
    members == [] || (MemberOk(members[0]) && MembersOk(members[1..]))
  }

  // ----- the value of a tree -----

  /** The 16-bit unit that four digits spell. */
  function UnitValue(c: Char): (u: nat)
    requires c.Unit? && CharOk(c)
    ensures JsonTheorems.SpellsUnit(c.digits, 0, u)
  {
    JsonTheorems.HexUnitExact(c.digits, 0, JsonTheorems.HexUnit(c.digits, 0).value);
    JsonTheorems.HexUnit(c.digits, 0).value
  }

  function CharBytes(c: Char): Bytes
    requires CharOk(c) && !c.Unit?
  {
    match c
    case Plain(b) => [b]
    case Short(e) => [Unescape(e).value]
  }

  function Prepend(b: Bytes, s: Option<Bytes>): Option<Bytes> {
    if s.None? then None else Some(b + s.value)
  }

  predicate IsLow(c: Char)
    requires CharOk(c)
  {
    c.Unit? && Utf8.IsLowSurrogate(UnitValue(c))
  }

  predicate IsHigh(c: Char)
    requires CharOk(c)
  {
    c.Unit? && Utf8.IsHighSurrogate(UnitValue(c))
  }

  /** The bytes of a string; none when a surrogate lacks its partner. */
  function StringOf(chars: seq<Char>): Option<Bytes>
    requires CharsOk(chars)
  {
    if chars == [] then Some([])
    else
      var c := chars[0];
      if IsLow(c) then None
      else if IsHigh(c) then
        if |chars| > 1 && IsLow(chars[1]) then
          Prepend(PairBytes(c, chars[1]), StringOf(chars[2..]))
        else None
      else Prepend(OneBytes(c), StringOf(chars[1..]))
  }

  function PairBytes(c: Char, second: Char): Bytes
    requires CharOk(c) && CharOk(second) && IsHigh(c) && IsLow(second)
  {
    Utf8.SurrogatePairsInjective(UnitValue(c), UnitValue(second));
    Utf8.Encode(Utf8.Combine(UnitValue(c), UnitValue(second)))
  }

  function OneBytes(c: Char): Bytes
    requires CharOk(c)
  {
    if c.Unit? then
      UnitIsSmall(c);
      Utf8.Encode(UnitValue(c))
    else CharBytes(c)
  }

  lemma UnitIsSmall(c: Char)
    requires CharOk(c) && c.Unit?
    ensures UnitValue(c) < 0x10000
  {
  }

  /** The value of a tree within a depth budget; none when it is nested too deeply, a surrogate lacks
      its partner or a literal is no number the parser can hold. */
  function Meaning(t: Tree, d: nat): Option<Value>
    requires WellFormed(t)
    decreases t, 0
  {
    match t
    case TNull => Some(Null)
    case TBool(b) => Some(Bool(b))
    case TNumber(literal) => NumberOf(literal)
    case TString(chars) => if StringOf(chars).None? then None else Some(Str(StringOf(chars).value))
    case TArray(_, items) =>
      if d == 0 then None
      else
        var vs := ItemValues(items, d - 1, []);
        if vs.None? then None else Some(Arr(vs.value))
    case TObject(_, members) =>
      if d == 0 then None
      else
        var vs := MemberValues(members, d, map[]);
        if vs.None? then None else Some(Obj(vs.value))
  }

  function ItemValues(items: seq<Item>, d: nat, before: seq<Value>): Option<seq<Value>>
    requires ItemsOk(items)
    decreases items, 1
  {
    if items == [] then Some(before)
    else
      assert ItemOk(items[0]);
      var x := Meaning(items[0].tree, d);
      if x.None? then None else ItemValues(items[1..], d, before + [x.value])
  }

  /** A repeated name takes its last value, but every value has to be one. */
  function MemberValues(members: seq<Member>, d: nat, before: map<Bytes, Value>): Option<map<Bytes, Value>>
    requires MembersOk(members)
    decreases members, 1
  {
    if members == [] then Some(before)
    else
      assert MemberOk(members[0]) && ItemOk(members[0].value);
      var k, x := StringOf(members[0].name), Meaning(members[0].value.tree, d);
      if k.None? || x.None? then None else MemberValues(members[1..], d, before[k.value := x.value])
  }

  // ----- what the parser makes of a tree's text -----

  lemma {:induction false} GapSkips(gap: Bytes, s: Bytes)
    requires AllWs(gap)
    ensures SkipWs(gap + s) == SkipWs(s)
    ensures StartsLikeNumber(gap + s) ==> gap == [] && StartsLikeNumber(s)
  {
    if gap == [] {
      assert gap + s == s;
    } else {
      assert (gap + s)[1..] == gap[1..] + s;
      GapSkips(gap[1..], s);
    }
  }

  lemma ByteFirst(c: byte, s: Bytes)
    ensures StartsWith([c] + s, c) && ([c] + s)[1..] == s
    ensures !IsWs(c) ==> SkipWs([c] + s) == [c] + s
    ensures !IsNumberChar(c) ==> !StartsLikeNumber([c] + s)
  {
  }

  /** White space, and a byte behind it. */
  lemma GapThenByte(gap: Bytes, c: byte, s: Bytes)
    requires AllWs(gap) && !IsWs(c) && !IsNumberChar(c)
    ensures var t := SkipWs(gap + ([c] + s));
      StartsWith(t, c) && t[1..] == s && !StartsLikeNumber(gap + ([c] + s))
  {
    GapSkips(gap, [c] + s);
    ByteFirst(c, s);
  }

  function Read<T>(v: Option<T>, rest: Bytes): Parsed<T> {
    if v.Some? then Ok(v.value, rest) else Fail
  }

  lemma UnitReads(c: Char, rest: Bytes)
    requires CharOk(c) && c.Unit?
    ensures QuadHex(c.digits + rest) == Ok(UnitValue(c), rest)
  {
    hide QuadHex, HexValue;
    var s := c.digits + rest;
    assert s[0..] == s && s[4..] == rest;
    assert s[0] == c.digits[0] && s[1] == c.digits[1] && s[2] == c.digits[2] && s[3] == c.digits[3];
    JsonTheorems.QuadHexReads(s, 0);
  }

  lemma PutFirst(chars: seq<Char>, rest: Bytes)
    requires chars != []
    ensures PutChars(chars, rest) == CharText(chars[0]) + PutChars(chars[1..], rest)
  {
  }

  lemma UnitText(c: Char, rest: Bytes)
    requires c.Unit?
    ensures CharText(c) + rest == ['\\', 'u'] + (c.digits + rest) == ['\\'] + (['u'] + (c.digits + rest))
  {
  }

  lemma SecondIsUnit(c: Char, tail: Bytes)
    requires CharOk(c) && c.Unit?
    ensures SecondUnit(CharText(c) + tail) == Ok(UnitValue(c), tail)
  {
    hide QuadHex, CharOk, CharText, UnitValue;
    UnitReads(c, tail);
    UnitText(c, tail);
    assert (['\\', 'u'] + (c.digits + tail))[2..] == c.digits + tail;
  }

  lemma SecondIsNone(c: Char, tail: Bytes)
    requires CharOk(c) && !c.Unit?
    ensures SecondUnit(CharText(c) + tail) == Fail
  {
    hide QuadHex;
  }

  /** What follows a high surrogate in a string. */
  lemma SecondReads(chars: seq<Char>, rest: Bytes)
    requires CharsOk(chars)
    ensures var r := SecondUnit(PutChars(chars, ['"'] + rest));
      if chars != [] && chars[0].Unit? then r == Ok(UnitValue(chars[0]), PutChars(chars[1..], ['"'] + rest)) else r == Fail
  {
    hide SecondUnit, CharOk, CharText, UnitValue;
    if chars == [] {
      QuoteIsNone(rest);
    } else {
      PutFirst(chars, ['"'] + rest);
      if chars[0].Unit? {
        SecondIsUnit(chars[0], PutChars(chars[1..], ['"'] + rest));
      } else {
        SecondIsNone(chars[0], PutChars(chars[1..], ['"'] + rest));
      }
    }
  }

  lemma QuoteIsNone(rest: Bytes)
    ensures SecondUnit(['"'] + rest) == Fail
  {
  }

  lemma PlainReads(c: Char, rest: Bytes, acc: Bytes)
    requires CharOk(c) && !c.Unit?
    ensures StringFrom(CharText(c) + rest, acc) == StringFrom(rest, acc + CharBytes(c))
  {
    hide StringFrom, Codepoint;
    var s := CharText(c) + rest;
    StringStep(s, acc);
    if c.Plain? {
      assert s[1..] == rest;
    } else {
      assert s[1..] == [c.e] + rest && ([c.e] + rest)[1..] == rest;
    }
  }

  /** A unit at the start of what is left of a string. */
  lemma UnitStep(c: Char, tail: Bytes, acc: Bytes)
    requires CharOk(c) && c.Unit?
    ensures IsLow(c) ==> StringFrom(CharText(c) + tail, acc) == Fail
    ensures IsHigh(c) ==>
      var second := SecondUnit(tail);
      StringFrom(CharText(c) + tail, acc) ==
        if second.Ok? && Utf8.IsLowSurrogate(second.value) then
          StringFrom(second.rest, acc + Utf8.Encode(Utf8.Combine(UnitValue(c), second.value)))
        else Fail
    ensures !IsLow(c) && !IsHigh(c) ==> StringFrom(CharText(c) + tail, acc) == StringFrom(tail, acc + OneBytes(c))
  {
    hide StringFrom, Utf8.Encode, QuadHex, SecondUnit;
    var s := CharText(c) + tail;
    StringStep(s, acc);
    assert s[1..] == ['u'] + (c.digits + tail) && (['u'] + (c.digits + tail))[1..] == c.digits + tail;
    UnitReads(c, tail);
  }

  lemma {:induction false} CharsRead(chars: seq<Char>, rest: Bytes, acc: Bytes)
    requires CharsOk(chars)
    ensures StringFrom(PutChars(chars, ['"'] + rest), acc) == Read(Prepend(acc, StringOf(chars)), rest)
    decreases |chars|
  {
    hide StringFrom, SecondUnit, CharText, CharBytes, CharOk, OneBytes, PairBytes, UnitValue, Utf8.Encode;
    if chars == [] {
      JsonRoundTrip.QuoteEnds(rest, acc);
      assert acc + [] == acc;
    } else {
      var c, tail := chars[0], PutChars(chars[1..], ['"'] + rest);
      assert CharOk(c);
      if IsHigh(c) {
        UnitStep(c, tail, acc);
        SecondReads(chars[1..], rest);
        if |chars| > 1 && IsLow(chars[1]) {
          assert chars[1..][1..] == chars[2..];
          PairBytesAre(c, chars[1]);
          CharsRead(chars[2..], rest, acc + PairBytes(c, chars[1]));
          AppendTwice(acc, PairBytes(c, chars[1]), StringOf(chars[2..]));
        }
      } else if IsLow(c) {
        UnitStep(c, tail, acc);
      } else {
        if c.Unit? {
          UnitStep(c, tail, acc);
        } else {
          PlainReads(c, tail, acc);
          PlainBytesAre(c);
        }
        CharsRead(chars[1..], rest, acc + OneBytes(c));
        AppendTwice(acc, OneBytes(c), StringOf(chars[1..]));
      }
    }
  }

  lemma AppendTwice(a: Bytes, b: Bytes, s: Option<Bytes>)
    ensures Prepend(a + b, s) == Prepend(a, Prepend(b, s))
  {
    if s.Some? {
      assert a + b + s.value == a + (b + s.value);
    }
  }

  lemma PairBytesAre(c: Char, second: Char)
    requires CharOk(c) && CharOk(second) && IsHigh(c) && IsLow(second)
    ensures 0 <= Utf8.Combine(UnitValue(c), UnitValue(second)) <= 0x10ffff
    ensures PairBytes(c, second) == Utf8.Encode(Utf8.Combine(UnitValue(c), UnitValue(second)))
    ensures c.Unit? && second.Unit? && Utf8.IsLowSurrogate(UnitValue(second))
  {
    Utf8.SurrogatePairsInjective(UnitValue(c), UnitValue(second));
  }

  lemma PlainBytesAre(c: Char)
    requires CharOk(c) && !c.Unit?
    ensures OneBytes(c) == CharBytes(c)
  {
  }

  lemma StringReads(chars: seq<Char>, rest: Bytes)
    requires CharsOk(chars)
    ensures StringFrom(PutChars(chars, ['"'] + rest), []) == Read(StringOf(chars), rest)
  {
    hide *;
    CharsRead(chars, rest, []);
    PrependNothing(StringOf(chars));
  }

  lemma PrependNothing(s: Option<Bytes>)
    ensures Prepend([], s) == s
  {
    assert s.Some? ==> [] + s.value == s.value;
  }

  lemma TreeStarts(t: Tree, rest: Bytes)
    requires WellFormed(t)
    ensures var s := Put(t, rest);
      s != [] && !IsWs(s[0]) && s[0] != ']' && s[0] != '}' && SkipWs(s) == s
  {
    hide ItemsOk, MembersOk, PutItems, PutMembers, PutChars, NumberOf;
  }

  lemma KeywordReads(s: Bytes, tail: Bytes, v: Value, rest: Bytes, d: nat)
    requires s != [] && s[1..] == tail + rest
    requires (s[0] == 'n' && tail == "ull" && v == Null) || (s[0] == 't' && tail == "rue" && v == Bool(true)) ||
      (s[0] == 'f' && tail == "alse" && v == Bool(false))
    ensures ValueFrom(s, d) == Ok(v, rest)
  {
    hide StringFrom, NumberSpan, NumberOf, ItemsFrom, MembersFrom;
    assert (tail + rest)[|tail|..] == rest;
  }

  lemma NumberReads(literal: Bytes, rest: Bytes, d: nat)
    requires NumberOk(literal) && !StartsLikeNumber(rest)
    ensures ValueFrom(literal + rest, d) == Read(NumberOf(literal), rest)
  {
    hide StringFrom, NumberOf, NumberSpan, ItemsFrom, MembersFrom, Keyword;
    var s := literal + rest;
    assert s[0] == literal[0] && s[..|literal|] == literal && s[|literal|..] == rest;
    JsonRoundTrip.NumberSpanExact(literal, rest);
  }

  lemma QuotedReads(chars: seq<Char>, rest: Bytes, d: nat)
    requires CharsOk(chars)
    ensures var x := StringOf(chars);
      ValueFrom(PutString(chars, rest), d) == if x.None? then Fail else Ok(Str(x.value), rest)
  {
    hide StringFrom, NumberOf, NumberSpan, ItemsFrom, MembersFrom, Keyword, StringOf, PutChars, CharsOk;
    ByteFirst('"', PutChars(chars, ['"'] + rest));
    StringReads(chars, rest);
  }

  lemma KeywordText(t: Tree, rest: Bytes) returns (c: byte, tail: Bytes)
    requires t.TNull? || t.TBool?
    ensures Put(t, rest) == [c] + (tail + rest)
    ensures if t.TNull? then c == 'n' && tail == "ull" else if t.b then c == 't' && tail == "rue" else c == 'f' && tail == "alse"
  {
    c := if t.TNull? then 'n' else if t.b then 't' else 'f';
    tail := if t.TNull? then "ull" else if t.b then "rue" else "alse";
    assert "null" == ['n'] + "ull" && "true" == ['t'] + "rue" && "false" == ['f'] + "alse";
    Regrouped([c], tail, rest);
  }

  lemma LeafReads(t: Tree, d: nat, rest: Bytes)
    requires WellFormed(t) && !t.TArray? && !t.TObject? && (t.TNumber? ==> !StartsLikeNumber(rest))
    ensures ValueFrom(Put(t, rest), d) == Read(Meaning(t, d), rest)
  {
    hide ValueFrom, NumberOf, StringOf, PutString, CharsOk, NumberOk;
    if t.TNumber? {
      NumberReads(t.literal, rest, d);
    } else if t.TString? {
      QuotedReads(t.chars, rest, d);
    } else {
      var c, tail := KeywordText(t, rest);
      ByteFirst(c, tail + rest);
      KeywordReads(Put(t, rest), tail, Meaning(t, d).value, rest, d);
    }
  }

  /** The parser gives every tree's text its meaning, and fails exactly when it has none. */
  lemma {:induction false} TreeReads(t: Tree, d: nat, rest: Bytes)
    requires WellFormed(t) && (t.TNumber? ==> !StartsLikeNumber(rest))
    ensures ValueFrom(Put(t, rest), d) == Read(Meaning(t, d), rest)
    decreases t, 1
  {
    hide ValueFrom, Put, Meaning, WellFormed;
    if t.TArray? {
      ArrayTreeReads(t, d, rest);
    } else if t.TObject? {
      ObjectTreeReads(t, d, rest);
    } else {
      LeafReads(t, d, rest);
    }
  }

  lemma ArrayTreeIs(t: Tree, d: nat, rest: Bytes)
    requires t.TArray? && WellFormed(t)
    ensures AllWs(t.gap) && ItemsOk(t.items)
    ensures d == 0 ==> Meaning(t, d) == None
    ensures d > 0 ==>
      var vs := ItemValues(t.items, d - 1, []);
      Meaning(t, d) == (if vs.None? then None else Some(Arr(vs.value))) && (t.items == [] ==> vs == Some([]))
    ensures Put(t, rest) == ['['] + (if t.items == [] then t.gap + ([']'] + rest) else PutItems(t.items, [']'] + rest))
  {
  }

  lemma ObjectTreeIs(t: Tree, d: nat, rest: Bytes)
    requires t.TObject? && WellFormed(t)
    ensures AllWs(t.gap) && MembersOk(t.members)
    ensures d == 0 ==> Meaning(t, d) == None
    ensures d > 0 ==>
      var vs := MemberValues(t.members, d, map[]);
      Meaning(t, d) == (if vs.None? then None else Some(Obj(vs.value))) && (t.members == [] ==> vs == Some(map[]))
    ensures Put(t, rest) == ['{'] + (if t.members == [] then t.gap + (['}'] + rest) else PutMembers(t.members, ['}'] + rest))
  {
  }

  lemma BracketNeedsBudget(s: Bytes)
    requires StartsWith(s, '[') || StartsWith(s, '{')
    ensures ValueFrom(s, 0) == Fail
  {
  }

  lemma {:induction false} ArrayTreeReads(t: Tree, d: nat, rest: Bytes)
    requires t.TArray? && WellFormed(t)
    ensures ValueFrom(Put(t, rest), d) == Read(Meaning(t, d), rest)
    decreases t, 0
  {
    hide ValueFrom, ItemsFrom, SkipWs, PutItems, ItemValues, Put, Meaning, WellFormed, ItemsOk, AllWs;
    ArrayTreeIs(t, d, rest);
    var items, inside := t.items, if t.items == [] then t.gap + ([']'] + rest) else PutItems(t.items, [']'] + rest);
    ByteFirst('[', inside);
    if d == 0 {
      BracketNeedsBudget(['['] + inside);
    } else {
      JsonRoundTrip.ArrayStep(['['] + inside, d, SkipWs(inside));
      if items == [] {
        GapThenByte(t.gap, ']', rest);
      } else {
        ItemsStart(items, [']'] + rest);
        JsonRoundTrip.ItemsSkipWs(inside, d - 1, []);
        ItemsRead(items, d - 1, rest, []);
      }
    }
  }

  lemma {:induction false} ObjectTreeReads(t: Tree, d: nat, rest: Bytes)
    requires t.TObject? && WellFormed(t)
    ensures ValueFrom(Put(t, rest), d) == Read(Meaning(t, d), rest)
    decreases t, 0
  {
    hide ValueFrom, MembersFrom, SkipWs, PutMembers, MemberValues, Put, Meaning, WellFormed, MembersOk, AllWs;
    ObjectTreeIs(t, d, rest);
    var members, inside := t.members, if t.members == [] then t.gap + (['}'] + rest) else PutMembers(t.members, ['}'] + rest);
    ByteFirst('{', inside);
    if d == 0 {
      BracketNeedsBudget(['{'] + inside);
    } else {
      JsonRoundTrip.ObjectStep(['{'] + inside, d, SkipWs(inside));
      if members == [] {
        GapThenByte(t.gap, '}', rest);
      } else {
        MembersStart(members, ['}'] + rest);
        JsonRoundTrip.MembersSkipWs(inside, d, map[]);
        MembersRead(members, d, rest, map[]);
      }
    }
  }

  lemma ItemsStart(items: seq<Item>, rest: Bytes)
    requires items != [] && ItemsOk(items)
    ensures !StartsWith(SkipWs(PutItems(items, rest)), ']')
  {
    hide Put, SkipWs;
    var more := if |items| == 1 then rest else [','] + PutItems(items[1..], rest);
    GapSkips(items[0].before, Put(items[0].tree, items[0].after + more));
    TreeStarts(items[0].tree, items[0].after + more);
  }

  lemma MembersStart(members: seq<Member>, rest: Bytes)
    requires members != [] && MembersOk(members)
    ensures !StartsWith(SkipWs(PutMembers(members, rest)), '}')
  {
    hide PutItem, PutChars;
    var m := members[0];
    var more := if |members| == 1 then rest else [','] + PutMembers(members[1..], rest);
    GapSkips(m.before, PutString(m.name, m.colon + ([':'] + PutItem(m.value, more))));
  }

  /** An item and what comes behind it, which starts with a byte that ends it. */
  lemma {:induction false} ItemReads(item: Item, d: nat, c: byte, more: Bytes)
    requires ItemOk(item) && !IsWs(c) && !IsNumberChar(c)
    ensures var r, behind := ValueFrom(PutItem(item, [c] + more), d), item.after + ([c] + more);
      r == Read(Meaning(item.tree, d), behind) && StartsWith(SkipWs(behind), c) && SkipWs(behind)[1..] == more
    decreases item, 1
  {
    hide ValueFrom, SkipWs, Put, Meaning;
    var behind := item.after + ([c] + more);
    GapThenByte(item.after, c, more);
    TreeReads(item.tree, d, behind);
    TreeStarts(item.tree, behind);
    GapSkips(item.before, Put(item.tree, behind));
    JsonRoundTrip.ValueSkipsWs(item.before + Put(item.tree, behind), d);
  }

  lemma FirstItem(items: seq<Item>, d: nat, acc: seq<Value>)
    requires items != [] && ItemsOk(items)
    ensures ItemOk(items[0]) && WellFormed(items[0].tree) && ItemsOk(items[1..])
    ensures var x := Meaning(items[0].tree, d);
      ItemValues(items, d, acc) == if x.None? then None else ItemValues(items[1..], d, acc + [x.value])
    ensures |items| == 1 ==> forall a: seq<Value> :: ItemValues(items[1..], d, a) == Some(a)
  {
    hide Meaning;
    assert ItemOk(items[0]);
  }

  lemma {:induction false} ItemsRead(items: seq<Item>, d: nat, rest: Bytes, acc: seq<Value>)
    requires items != [] && ItemsOk(items)
    ensures var vs := ItemValues(items, d, acc);
      ItemsFrom(PutItems(items, [']'] + rest), d, acc) == if vs.None? then Fail else Ok(Arr(vs.value), rest)
    decreases items, 2
  {
    hide ValueFrom, ItemsFrom, SkipWs, PutItem, Meaning, ItemsOk, ItemValues, ItemOk, WellFormed;
    FirstItem(items, d, acc);
    var x := Meaning(items[0].tree, d);
    ItemsStep(PutItems(items, [']'] + rest), d, acc);
    if |items| == 1 {
      ItemReads(items[0], d, ']', rest);
    } else {
      ItemReads(items[0], d, ',', PutItems(items[1..], [']'] + rest));
      if x.Some? {
        ItemsRead(items[1..], d, rest, acc + [x.value]);
      }
    }
  }

  lemma NameReads(m: Member, more: Bytes)
    requires MemberOk(m)
    ensures KeyFrom(PutMember(m, more)) == Read(StringOf(m.name), PutItem(m.value, more))
  {
    hide StringFrom, SkipWs, PutItem, PutChars, StringOf;
    var value := PutItem(m.value, more);
    var text := PutString(m.name, m.colon + ([':'] + value));
    GapSkips(m.before, text);
    ByteFirst('"', PutChars(m.name, ['"'] + (m.colon + ([':'] + value))));
    StringReads(m.name, m.colon + ([':'] + value));
    GapThenByte(m.colon, ':', value);
  }

  lemma FirstMember(members: seq<Member>, d: nat, acc: map<Bytes, Value>)
    requires members != [] && MembersOk(members)
    ensures var m := members[0];
      MemberOk(m) && ItemOk(m.value) && CharsOk(m.name) && WellFormed(m.value.tree) && MembersOk(members[1..])
    ensures var k, x := StringOf(members[0].name), Meaning(members[0].value.tree, d);
      MemberValues(members, d, acc) == if k.None? || x.None? then None else MemberValues(members[1..], d, acc[k.value := x.value])
    ensures |members| == 1 ==> forall a: map<Bytes, Value> :: MemberValues(members[1..], d, a) == Some(a)
  {
    hide Meaning, StringOf;
    assert MemberOk(members[0]);
    assert ItemOk(members[0].value);
  }

  lemma {:induction false} MembersRead(members: seq<Member>, d: nat, rest: Bytes, acc: map<Bytes, Value>)
    requires members != [] && MembersOk(members)
    ensures var vs := MemberValues(members, d, acc);
      MembersFrom(PutMembers(members, ['}'] + rest), d, acc) == if vs.None? then Fail else Ok(Obj(vs.value), rest)
    decreases members, 2
  {
    hide ValueFrom, MembersFrom, SkipWs, PutItem, PutMember, Meaning, KeyFrom, StringOf, MembersOk, MemberValues, MemberOk, ItemOk,
      CharsOk, WellFormed;
    FirstMember(members, d, acc);
    var m := members[0];
    var k, x := StringOf(m.name), Meaning(m.value.tree, d);
    MembersStep(PutMembers(members, ['}'] + rest), d, acc);
    if |members| == 1 {
      NameReads(m, ['}'] + rest);
      ItemReads(m.value, d, '}', rest);
    } else {
      var next := PutMembers(members[1..], ['}'] + rest);
      NameReads(m, [','] + next);
      ItemReads(m.value, d, ',', next);
      if k.Some? && x.Some? {
        MembersRead(members[1..], d, rest, acc[k.value := x.value]);
      }
    }
  }

  // ----- every text it accepts has a tree -----

  lemma LongerGap(c: byte, gap: Bytes, rest: Bytes)
    requires IsWs(c) && AllWs(gap)
    ensures AllWs([c] + gap) && [c] + (gap + rest) == ([c] + gap) + rest
  {
  }

  lemma {:induction false} SplitGap(s: Bytes) returns (gap: Bytes)
    ensures AllWs(gap) && s == gap + SkipWs(s)
  {
    hide AllWs;
    if s != [] && IsWs(s[0]) {
      var tail := SplitGap(s[1..]);
      gap := [s[0]] + tail;
      assert s == [s[0]] + s[1..];
      LongerGap(s[0], tail, SkipWs(s));
    } else {
      gap := [];
      EmptyGap();
      assert [] + s == s;
    }
  }

  lemma EmptyGap()
    ensures AllWs([])
  {
  }

  /** White space, the byte `c`, and the rest. */
  lemma SplitAt(s: Bytes, c: byte) returns (gap: Bytes)
    requires StartsWith(SkipWs(s), c)
    ensures AllWs(gap) && s == gap + ([c] + SkipWs(s)[1..])
  {
    hide SkipWs;
    gap := SplitGap(s);
    assert SkipWs(s) == [c] + SkipWs(s)[1..];
  }

  lemma DigitsOf(s: Bytes) returns (c: Char)
    requires QuadHex(s).Ok?
    ensures CharOk(c) && c.Unit? && s == c.digits + QuadHex(s).rest && UnitValue(c) == QuadHex(s).value
  {
    hide HexValue, QuadHex;
    assert s[0..] == s;
    JsonTheorems.QuadHexReads(s, 0);
    c := Unit(s[..4]);
    assert s == s[..4] + s[4..];
  }

  /** The one or two units behind a `\u`. */
  lemma UnitsOf(s: Bytes) returns (cs: seq<Char>)
    requires Codepoint(s).Ok?
    ensures CharsOk(cs) && (|cs| == 1 || |cs| == 2)
    ensures ['\\'] + (['u'] + s) == PutChars(cs, Codepoint(s).rest)
    ensures if |cs| == 1 then !IsHigh(cs[0]) && !IsLow(cs[0]) && OneBytes(cs[0]) == Codepoint(s).value
      else IsHigh(cs[0]) && IsLow(cs[1]) && PairBytes(cs[0], cs[1]) == Codepoint(s).value
  {
    hide QuadHex, Utf8.Encode, UnitValue, CharOk;
    var c := DigitsOf(s);
    var t := QuadHex(s).rest;
    if Utf8.IsHighSurrogate(QuadHex(s).value) {
      var second := DigitsOf(t[2..]);
      cs := [c, second];
      var rest := Codepoint(s).rest;
      assert t == ['\\', 'u'] + t[2..];
      UnitText(second, rest);
      UnitText(c, t);
      assert cs[1..] == [second] && [second][1..] == [];
      assert PutChars([], rest) == rest && PutChars([second], rest) == t;
      PairBytesAre(c, second);
    } else {
      cs := [c];
      UnitText(c, t);
      assert cs[1..] == [] && PutChars([], t) == t;
    }
  }

  lemma UnitsInFront(cs: seq<Char>, more: seq<Char>)
    requires CharsOk(cs) && CharsOk(more)
    requires if |cs| == 1 then !IsHigh(cs[0]) && !IsLow(cs[0]) else |cs| == 2 && IsHigh(cs[0]) && IsLow(cs[1])
    ensures CharsOk(cs + more)
    ensures StringOf(cs + more) == Prepend(if |cs| == 1 then OneBytes(cs[0]) else PairBytes(cs[0], cs[1]), StringOf(more))
  {
    hide UnitValue, OneBytes, PairBytes, CharOk;
    assert (cs + more)[|cs|..] == more;
  }

  lemma {:induction false} CharsJoin(cs: seq<Char>, more: seq<Char>, rest: Bytes)
    ensures PutChars(cs + more, rest) == PutChars(cs, PutChars(more, rest))
  {
    if cs == [] {
      assert cs + more == more;
    } else {
      assert (cs + more)[1..] == cs[1..] + more;
      CharsJoin(cs[1..], more, rest);
    }
  }

  /** The first piece of a string, or the two of a surrogate pair. */
  lemma PieceOf(s: Bytes, acc: Bytes) returns (cs: seq<Char>, b: Bytes, t: Bytes)
    requires StringFrom(s, acc).Ok? && s[0] != '"'
    ensures CharsOk(cs) && s == PutChars(cs, t) && |t| < |s| && StringFrom(s, acc) == StringFrom(t, acc + b)
    ensures if |cs| == 1 then !IsHigh(cs[0]) && !IsLow(cs[0]) && OneBytes(cs[0]) == b
      else |cs| == 2 && IsHigh(cs[0]) && IsLow(cs[1]) && PairBytes(cs[0], cs[1]) == b
  {
    hide StringFrom, Codepoint, UnitValue, PairBytes;
    StringStep(s, acc);
    if s[0] != '\\' {
      cs, b, t := [Plain(s[0])], [s[0]], s[1..];
      assert cs[1..] == [] && PutChars([], t) == t;
      assert s == CharText(cs[0]) + t;
    } else {
      b, t := EscapeFrom(s[1..]).value, EscapeFrom(s[1..]).rest;
      assert s == ['\\'] + s[1..];
      if s[1] == 'u' {
        assert s[1..] == ['u'] + s[2..] && s[1..][1..] == s[2..];
        cs := UnitsOf(s[2..]);
      } else {
        cs := [Short(s[1])];
        assert cs[1..] == [] && PutChars([], t) == t;
        assert s == CharText(cs[0]) + t;
      }
    }
  }

  lemma {:induction false} CharsOf(s: Bytes, acc: Bytes) returns (chars: seq<Char>)
    requires StringFrom(s, acc).Ok?
    ensures CharsOk(chars)
    ensures Prepend(acc, StringOf(chars)) == Some(StringFrom(s, acc).value)
    ensures s == PutChars(chars, ['"'] + StringFrom(s, acc).rest)
    decreases |s|
  {
    hide StringFrom, PutChars, CharsOk, StringOf, IsHigh, IsLow, OneBytes, PairBytes, CharOk;
    StringStep(s, acc);
    if s[0] == '"' {
      chars := [];
      assert acc + [] == acc && s == ['"'] + s[1..];
      NoChars(s);
    } else {
      var cs, b, t := PieceOf(s, acc);
      var more := CharsOf(t, acc + b);
      chars := cs + more;
      UnitsInFront(cs, more);
      CharsJoin(cs, more, ['"'] + StringFrom(s, acc).rest);
      AppendTwice(acc, b, StringOf(more));
    }
  }

  lemma NoChars(s: Bytes)
    ensures CharsOk([]) && StringOf([]) == Some([]) && PutChars([], s) == s
  {
  }

  lemma KeywordOf(s: Bytes, d: nat) returns (t: Tree)
    requires s != [] && (s[0] == 'n' || s[0] == 'f' || s[0] == 't') && ScalarFrom(s).Ok?
    ensures (t.TNull? || t.TBool?) && Meaning(t, d) == Some(ScalarFrom(s).value) && s == Put(t, ScalarFrom(s).rest)
  {
    hide StringFrom, NumberOf, NumberSpan, Put;
    t := if s[0] == 'n' then TNull else TBool(s[0] == 't');
    var c, tail := KeywordText(t, ScalarFrom(s).rest);
    assert s == [s[0]] + s[1..] && s[1..] == tail + s[1..][|tail|..];
  }

  lemma NumberLeafOf(s: Bytes) returns (literal: Bytes)
    requires s != [] && (IsDigit(s[0]) || s[0] == '-') && ScalarFrom(s).Ok?
    ensures NumberOk(literal) && NumberOf(literal) == Some(ScalarFrom(s).value)
    ensures s == literal + ScalarFrom(s).rest && !StartsLikeNumber(ScalarFrom(s).rest)
  {
    hide StringFrom, NumberOf, NumberSpan, Keyword;
    var n := NumberSpan(s);
    NumberSpanMeans(s);
    NumberNotEmpty(s);
    literal := s[..n];
    assert s == s[..n] + s[n..];
  }

  lemma QuotedOf(s: Bytes) returns (chars: seq<Char>)
    requires StartsWith(s, '"') && ScalarFrom(s).Ok?
    ensures CharsOk(chars) && StringOf(chars).Some? && ScalarFrom(s).value == Str(StringOf(chars).value)
    ensures s == PutString(chars, ScalarFrom(s).rest)
  {
    hide StringFrom, NumberOf, NumberSpan, Keyword, StringOf, PutChars, CharsOk;
    chars := CharsOf(s[1..], []);
    PrependNothing(StringOf(chars));
    assert s == ['"'] + s[1..];
  }

  lemma LeafOf(s: Bytes, d: nat) returns (t: Tree)
    requires s != [] && ScalarFrom(s).Ok?
    ensures WellFormed(t) && !t.TArray? && !t.TObject? && Meaning(t, d) == Some(ScalarFrom(s).value)
    ensures s == Put(t, ScalarFrom(s).rest) && (t.TNumber? ==> !StartsLikeNumber(ScalarFrom(s).rest))
  {
    hide StringFrom, NumberOf, NumberSpan, StringOf, PutString, Keyword, CharsOk, NumberOk;
    if s[0] == '"' {
      var chars := QuotedOf(s);
      t := TString(chars);
    } else if s[0] == 'n' || s[0] == 'f' || s[0] == 't' {
      t := KeywordOf(s, d);
    } else {
      var literal := NumberLeafOf(s);
      t := TNumber(literal);
    }
  }

  lemma NumberNotEmpty(s: Bytes)
    requires StartsLikeNumber(s)
    ensures NumberSpan(s) > 0
  {
  }

  lemma {:induction false} TreeOf(s: Bytes, d: nat) returns (gap: Bytes, t: Tree)
    requires ValueFrom(s, d).Ok?
    ensures Spells(s, gap, t, ValueFrom(s, d).rest) && Meaning(t, d) == Some(ValueFrom(s, d).value)
    decreases |s|, 2
  {
    hide SkipWs, ScalarFrom, ItemsFrom, MembersFrom, ItemsOk, MembersOk, PutItems, PutMembers, ItemValues, MemberValues, NumberOk,
      CharsOk, StringOf, PutString, Meaning, WellFormed, Put;
    gap := SplitGap(s);
    var u := SkipWs(s);
    ValueIsAt(s, d);
    if u[0] == '[' {
      t := ArrayOf(u, d);
    } else if u[0] == '{' {
      t := ObjectOf(u, d);
    } else {
      t := LeafOf(u, d);
    }
  }

  lemma ValueIsAt(s: Bytes, d: nat)
    ensures ValueFrom(s, d) == ValueFrom(SkipWs(s), d) && |SkipWs(s)| <= |s|
  {
    JsonRoundTrip.ValueSkipsWs(s, d);
  }

  lemma {:induction false} ArrayOf(s: Bytes, d: nat) returns (t: Tree)
    requires StartsWith(s, '[') && ValueFrom(s, d).Ok?
    ensures t.TArray? && WellFormed(t) && Meaning(t, d) == Some(ValueFrom(s, d).value)
    ensures s == Put(t, ValueFrom(s, d).rest)
    decreases |s|, 1
  {
    hide ValueFrom, SkipWs, ItemsFrom, PutItems, ItemValues, ItemsOk, Put, Meaning, WellFormed, AllWs;
    var u := SkipWs(s[1..]);
    if d == 0 {
      BracketNeedsBudget(s);
    }
    JsonRoundTrip.ArrayStep(s, d, u);
    assert s == ['['] + s[1..];
    if StartsWith(u, ']') {
      var gap := SplitAt(s[1..], ']');
      t := TArray(gap, []);
      NoItems(d - 1);
      ArrayTree(gap, []);
    } else {
      JsonRoundTrip.ItemsSkipWs(s[1..], d - 1, []);
      var items := ItemsOf(s[1..], d - 1, []);
      t := TArray([], items);
      EmptyGap();
      ArrayTree([], items);
    }
    ArrayTreeIs(t, d, ValueFrom(s, d).rest);
  }

  lemma ArrayTree(gap: Bytes, items: seq<Item>)
    requires AllWs(gap) && ItemsOk(items)
    ensures WellFormed(TArray(gap, items))
  {
  }

  lemma ObjectTree(gap: Bytes, members: seq<Member>)
    requires AllWs(gap) && MembersOk(members)
    ensures WellFormed(TObject(gap, members))
  {
  }

  lemma NoItems(d: nat)
    ensures ItemsOk([]) && ItemValues([], d, []) == Some([])
  {
  }

  lemma NoMembers(d: nat)
    ensures MembersOk([]) && MemberValues([], d, map[]) == Some(map[])
  {
  }

  lemma {:induction false} ObjectOf(s: Bytes, d: nat) returns (t: Tree)
    requires StartsWith(s, '{') && ValueFrom(s, d).Ok?
    ensures t.TObject? && WellFormed(t) && Meaning(t, d) == Some(ValueFrom(s, d).value)
    ensures s == Put(t, ValueFrom(s, d).rest)
    decreases |s|, 1
  {
    hide ValueFrom, SkipWs, MembersFrom, PutMembers, MemberValues, MembersOk, Put, Meaning, WellFormed, AllWs;
    var u := SkipWs(s[1..]);
    if d == 0 {
      BracketNeedsBudget(s);
    }
    JsonRoundTrip.ObjectStep(s, d, u);
    assert s == ['{'] + s[1..];
    if StartsWith(u, '}') {
      var gap := SplitAt(s[1..], '}');
      t := TObject(gap, []);
      NoMembers(d);
      ObjectTree(gap, []);
    } else {
      JsonRoundTrip.MembersSkipWs(s[1..], d, map[]);
      var members := MembersOf(s[1..], d, map[]);
      t := TObject([], members);
      EmptyGap();
      ObjectTree([], members);
    }
    ObjectTreeIs(t, d, ValueFrom(s, d).rest);
  }

  /** The item in front of `c`. */
  lemma {:induction false} ItemOf(s: Bytes, d: nat, c: byte) returns (item: Item)
    requires ValueFrom(s, d).Ok? && StartsWith(SkipWs(ValueFrom(s, d).rest), c)
    ensures ItemOk(item) && Meaning(item.tree, d) == Some(ValueFrom(s, d).value)
    ensures s == PutItem(item, [c] + SkipWs(ValueFrom(s, d).rest)[1..])
    decreases |s|, 3
  {
    hide ValueFrom, SkipWs, WellFormed, Meaning, Put;
    var gap, t := TreeOf(s, d);
    var after := SplitAt(ValueFrom(s, d).rest, c);
    item := Item(gap, t, after);
  }

  lemma {:induction false} ItemsOf(s: Bytes, d: nat, acc: seq<Value>) returns (items: seq<Item>)
    requires ItemsFrom(s, d, acc).Ok?
    ensures items != [] && ItemsOk(items)
    ensures ItemValues(items, d, acc).Some? && ItemsFrom(s, d, acc).value == Arr(ItemValues(items, d, acc).value)
    ensures s == PutItems(items, [']'] + ItemsFrom(s, d, acc).rest)
    decreases |s|, 4
  {
    hide ValueFrom, ItemsFrom, SkipWs, PutItem, Meaning, WellFormed, ItemValues;
    ItemsStep(s, d, acc);
    var x, after := ValueFrom(s, d).value, SkipWs(ValueFrom(s, d).rest);
    var item := ItemOf(s, d, after[0]);
    if after[0] == ',' {
      var more := ItemsOf(after[1..], d, acc + [x]);
      items := [item] + more;
      assert items[1..] == more;
    } else {
      items := [item];
      assert items[1..] == [];
    }
    FirstItem(items, d, acc);
  }

  /** The name and the colon. */
  lemma NameOf(s: Bytes) returns (before: Bytes, name: seq<Char>, colon: Bytes)
    requires KeyFrom(s).Ok?
    ensures AllWs(before) && CharsOk(name) && AllWs(colon) && StringOf(name) == Some(KeyFrom(s).value)
    ensures s == before + PutString(name, colon + ([':'] + KeyFrom(s).rest))
  {
    hide StringFrom, SkipWs, StringOf, PutChars;
    before := SplitAt(s, '"');
    var t := SkipWs(s)[1..];
    name := CharsOf(t, []);
    PrependNothing(StringOf(name));
    colon := SplitAt(StringFrom(t, []).rest, ':');
  }

  lemma {:induction false} MembersOf(s: Bytes, d: nat, acc: map<Bytes, Value>) returns (members: seq<Member>)
    requires MembersFrom(s, d, acc).Ok?
    ensures members != [] && MembersOk(members)
    ensures MemberValues(members, d, acc).Some? && MembersFrom(s, d, acc).value == Obj(MemberValues(members, d, acc).value)
    ensures s == PutMembers(members, ['}'] + MembersFrom(s, d, acc).rest)
    decreases |s|, 4
  {
    hide ValueFrom, MembersFrom, SkipWs, PutItem, PutString, Meaning, WellFormed, KeyFrom, StringOf, CharsOk, MemberValues;
    MembersStep(s, d, acc);
    var k, afterKey := KeyFrom(s).value, KeyFrom(s).rest;
    var x, after := ValueFrom(afterKey, d).value, SkipWs(ValueFrom(afterKey, d).rest);
    var before, name, colon := NameOf(s);
    var item := ItemOf(afterKey, d, after[0]);
    var m := Member(before, name, colon, item);
    if after[0] == ',' {
      var more := MembersOf(after[1..], d, acc[k := x]);
      members := [m] + more;
      assert members[1..] == more;
    } else {
      members := [m];
      assert members[1..] == [];
    }
    FirstMember(members, d, acc);
  }

  // ----- the parser and the syntax -----

  /** White space and the tree's text, in front of `rest`; a number is not cut short. */
  predicate Spells(s: Bytes, gap: Bytes, t: Tree, rest: Bytes) {
    AllWs(gap) && WellFormed(t) && s == gap + Put(t, rest) && (t.TNumber? ==> !StartsLikeNumber(rest))
  }

  /** A text that a tree spells is read as the tree means, and refused when it means nothing. */
  lemma SpelledIsRead(s: Bytes, d: nat, gap: Bytes, t: Tree, rest: Bytes)
    requires Spells(s, gap, t, rest)
    ensures ValueFrom(s, d) == Read(Meaning(t, d), rest)
  {
    hide ValueFrom, SkipWs, WellFormed, Meaning, Put, AllWs;
    TreeReads(t, d, rest);
    TreeStarts(t, rest);
    GapSkips(gap, Put(t, rest));
    ValueIsAt(s, d);
  }

  /** The parser returns a value, and leaves a rest, exactly when some tree spells the text in front of
      that rest and means that value within the budget. */
  lemma ReadsExactlyTheSyntax(s: Bytes, d: nat, v: Value, rest: Bytes)
    ensures ValueFrom(s, d) == Ok(v, rest) <==> exists gap, t :: Spells(s, gap, t, rest) && Meaning(t, d) == Some(v)
  {
    hide ValueFrom, WellFormed, Meaning, Put, AllWs;
    if ValueFrom(s, d) == Ok(v, rest) {
      var gap, t := TreeOf(s, d);
    }
    if gap, t :| Spells(s, gap, t, rest) && Meaning(t, d) == Some(v) {
      SpelledIsRead(s, d, gap, t, rest);
    }
  }

  /** `parse` gives a value exactly when the text starts, behind white space, with a tree that means it
      within 100 units of depth; what stands behind the tree does not matter, unless it would extend a
      number. */
  lemma ParseExact(s: Bytes, v: Value)
    ensures Parse(s) == Some(v) <==> exists gap, t, rest :: Spells(s, gap, t, rest) && Meaning(t, 100) == Some(v)
  {
    hide ValueFrom, WellFormed, Meaning, Put, AllWs;
    if Parse(s) == Some(v) {
      ReadsExactlyTheSyntax(s, 100, v, ValueFrom(s, 100).rest);
    }
    if gap, t, rest :| Spells(s, gap, t, rest) && Meaning(t, 100) == Some(v) {
      ReadsExactlyTheSyntax(s, 100, v, rest);
    }
  }
}
