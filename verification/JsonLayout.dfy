/** How printed values are laid out, by nothing but the characters themselves. */
module JsonLayout {
  import opened ByteStrings
  import opened JsonValue
  import opened JsonText

  /** Texts with commas between them. */
  function Listed(texts: seq<Bytes>): Bytes {
    if texts == [] then []
    else if |texts| == 1 then texts[0]
    else texts[0] + "," + Listed(texts[1..])
  }

  /** `n` blanks. */
  predicate Blanks(s: Bytes, n: int) {
    |s| == n && forall i | 0 <= i < |s| :: s[i] == ' '
  }

  /** One text for each item, from the `i`-th on. */
  function ItemTexts(items: seq<Value>, i: nat, front: Bytes, indent: int, fmt: DoubleFormat): (r: seq<Bytes>)
    requires i <= |items| && indent >= COMPACT
    ensures |r| == |items| - i
    ensures forall j | 0 <= j < |r| :: r[j] == front + Serialize(items[i + j], indent, fmt)
  {
    seq(|items| - i, j requires 0 <= j < |items| - i => front + Serialize(items[i + j], indent, fmt))
  }

  function MemberTexts(members: map<Bytes, Value>, ks: seq<Bytes>, i: nat, front: Bytes, colon: Bytes, indent: int,
                       fmt: DoubleFormat): (r: seq<Bytes>)
    requires i <= |ks| && indent >= COMPACT && forall j | 0 <= j < |ks| :: ks[j] in members
    ensures |r| == |ks| - i
    ensures forall j | 0 <= j < |r| ::
      r[j] == front + Quoted(ks[i + j]) + colon + Serialize(members[ks[i + j]], indent, fmt)
  {
    seq(|ks| - i, j requires 0 <= j < |ks| - i => front + Quoted(ks[i + j]) + colon + Serialize(members[ks[i + j]], indent, fmt))
  }

  lemma ListedStep(first: Bytes, texts: seq<Bytes>)
    ensures Listed([first] + texts) == if texts == [] then first else first + "," + Listed(texts)
  {
    assert ([first] + texts)[1..] == texts;
  }

  lemma {:induction false} ItemsListed(items: seq<Value>, i: nat, indent: int, fmt: DoubleFormat)
    requires i <= |items| && indent >= COMPACT
    ensures ItemsFrom(items, i, indent, fmt) ==
      (if i == 0 || i == |items| then [] else ",") + Listed(ItemTexts(items, i, LineBreak(indent), indent, fmt))
    decreases |items| - i
  {
    hide Serialize, LineBreak, Listed;
    var texts := ItemTexts(items, i, LineBreak(indent), indent, fmt);
    if i == |items| {
      NothingListed();
      assert texts == [];
    } else {
      ItemsListed(items, i + 1, indent, fmt);
      var tail := ItemTexts(items, i + 1, LineBreak(indent), indent, fmt);
      assert texts == [texts[0]] + tail;
      ListedStep(texts[0], tail);
      NothingListed();
      Commas(if i == 0 then [] else ",", LineBreak(indent), Serialize(items[i], indent, fmt), Listed(tail));
    }
  }

  lemma NothingListed()
    ensures Listed([]) == []
  {
  }

  lemma Commas(comma: Bytes, front: Bytes, text: Bytes, more: Bytes)
    ensures comma + front + text + ("," + more) == comma + (front + text + "," + more)
    ensures comma + front + text + ([] + []) == comma + (front + text)
  {
  }

  /** Quotes around the escaped bytes. */
  lemma QuotedExact(s: Bytes)
    ensures Quoted(s) == "\"" + Concat(seq(|s|, i requires 0 <= i < |s| => EscapeByte(s[i]))) + "\""
  {
    hide EscapeByte;
    EscapedInOrder(s);
  }

  function Concat(texts: seq<Bytes>): Bytes {
    if texts == [] then [] else texts[0] + Concat(texts[1..])
  }

  lemma {:induction false} EscapedInOrder(s: Bytes)
    ensures EscapeAll(s) == Concat(seq(|s|, i requires 0 <= i < |s| => EscapeByte(s[i])))
  {
    hide EscapeByte;
    if s != [] {
      EscapedInOrder(s[1..]);
      var texts := seq(|s|, i requires 0 <= i < |s| => EscapeByte(s[i]));
      assert texts[1..] == seq(|s[1..]|, i requires 0 <= i < |s[1..]| => EscapeByte(s[1..][i]));
    }
  }

  lemma {:induction false} MembersListed(v: Value, ks: seq<Bytes>, i: nat, indent: int, fmt: DoubleFormat)
    requires v.Obj? && i <= |ks| && indent >= COMPACT && forall j | 0 <= j < |ks| :: ks[j] in v.members
    ensures
      var colon: Bytes := if indent == COMPACT then ":" else ": ";
      MembersFrom(v, ks, i, indent, fmt) ==
        (if i == 0 || i == |ks| then [] else ",") + Listed(MemberTexts(v.members, ks, i, LineBreak(indent), colon, indent, fmt))
    decreases |ks| - i
  {
    hide Serialize, LineBreak, Listed, Quoted, MembersFrom, MemberTexts;
    var colon: Bytes := if indent == COMPACT then ":" else ": ";
    NothingListed();
    if i == |ks| {
      NoMemberLeft(v, ks, indent, fmt, LineBreak(indent), colon);
    } else {
      MembersListed(v, ks, i + 1, indent, fmt);
      FirstMember(v, ks, i, indent, fmt);
      var tail := MemberTexts(v.members, ks, i + 1, LineBreak(indent), colon, indent, fmt);
      var first := LineBreak(indent) + Quoted(ks[i]) + colon + Serialize(v.members[ks[i]], indent, fmt);
      FirstText(v.members, ks, i, LineBreak(indent), colon, indent, fmt);
      ListedStep(first, tail);
      AfterFirst(if i == 0 then [] else ",", first, Listed(tail));
    }
  }

  lemma AfterFirst(comma: Bytes, first: Bytes, more: Bytes)
    ensures comma + first + ("," + more) == comma + (first + "," + more)
    ensures comma + first + ([] + []) == comma + first
  {
  }

  lemma NoMemberLeft(v: Value, ks: seq<Bytes>, indent: int, fmt: DoubleFormat, front: Bytes, colon: Bytes)
    requires v.Obj? && indent >= COMPACT && forall j | 0 <= j < |ks| :: ks[j] in v.members
    ensures MembersFrom(v, ks, |ks|, indent, fmt) == []
    ensures MemberTexts(v.members, ks, |ks|, front, colon, indent, fmt) == []
  {
  }

  lemma FirstMember(v: Value, ks: seq<Bytes>, i: nat, indent: int, fmt: DoubleFormat)
    requires v.Obj? && i < |ks| && indent >= COMPACT && forall j | 0 <= j < |ks| :: ks[j] in v.members
    ensures
      var colon: Bytes := if indent == COMPACT then ":" else ": ";
      MembersFrom(v, ks, i, indent, fmt) ==
        (if i == 0 then [] else ",") + (LineBreak(indent) + Quoted(ks[i]) + colon + Serialize(v.members[ks[i]], indent, fmt))
        + MembersFrom(v, ks, i + 1, indent, fmt)
  {
    hide Serialize, LineBreak, Quoted;
    MemberText(if i == 0 then [] else ",", LineBreak(indent), Quoted(ks[i]), indent, Serialize(v.members[ks[i]], indent, fmt),
      MembersFrom(v, ks, i + 1, indent, fmt));
  }

  lemma FirstText(members: map<Bytes, Value>, ks: seq<Bytes>, i: nat, front: Bytes, colon: Bytes, indent: int, fmt: DoubleFormat)
    requires i < |ks| && indent >= COMPACT && forall j | 0 <= j < |ks| :: ks[j] in members
    ensures MemberTexts(members, ks, i, front, colon, indent, fmt) ==
      [front + Quoted(ks[i]) + colon + Serialize(members[ks[i]], indent, fmt)] + MemberTexts(members, ks, i + 1, front, colon, indent, fmt)
  {
    hide Serialize, Quoted;
  }

  lemma MemberText(comma: Bytes, front: Bytes, name: Bytes, indent: int, text: Bytes, more: Bytes)
    ensures
      var colon: Bytes := if indent == COMPACT then ":" else ": ";
      comma + front + name + [':'] + (if indent == COMPACT then [] else [' ']) + text + more
        == comma + (front + name + colon + text) + more
  {
  }

  /** Compact text: brackets, commas, colons, the members in the order of their names, and nothing
      else in between. */
  lemma CompactLayout(v: Value, fmt: DoubleFormat)
    ensures v.Arr? ==>
      Serialize(v, COMPACT, fmt) == "[" + Listed(ItemTexts(v.items, 0, [], COMPACT, fmt)) + "]"
    ensures v.Obj? ==>
      var ks := KeyOrder(v.members);
      Increasing(ks) && (forall k :: k in ks <==> k in v.members) &&
      Serialize(v, COMPACT, fmt) == "{" + Listed(MemberTexts(v.members, ks, 0, [], ":", COMPACT, fmt)) + "}"
    ensures v.Str? ==> Serialize(v, COMPACT, fmt) == Quoted(v.s)
  {
    hide Listed, Quoted, ItemsFrom, MembersFrom, KeyOrder;
    if v.Arr? {
      ItemsListed(v.items, 0, COMPACT, fmt);
    } else if v.Obj? {
      KeysInOrder(v.members);
      MembersListed(v, KeyOrder(v.members), 0, COMPACT, fmt);
    }
  }

  lemma KeysInOrder(members: map<Bytes, Value>)
    ensures Increasing(KeyOrder(members)) && |KeyOrder(members)| == |members|
  {
  }

  /** A value's text is its body, and a newline behind the outermost one when it is prettified. */
  lemma PrettyEnd(v: Value, indent: nat, fmt: DoubleFormat)
    ensures Serialize(v, indent, fmt) == Body(v, indent, fmt) + (if indent == 0 then "\n" else "")
    ensures v.Str? ==> Body(v, indent, fmt) == Quoted(v.s)
  {
    hide Quoted, ItemsFrom, MembersFrom, KeyOrder, LineBreak;
  }

  lemma Enclosed(open: byte, lines: Bytes, front: Bytes, close: byte)
    ensures [open] + ([] + lines) + front + [close] == [open] + lines + front + [close]
  {
    assert [] + lines == lines;
  }

  /** Prettified text: each item and each member on a line of its own, two blanks further in than the
      bracket that closes them, and a blank behind each colon. Nothing stands between the brackets of
      an empty array or object. */
  lemma PrettyArray(v: Value, indent: nat, fmt: DoubleFormat, here: Bytes, deeper: Bytes)
    requires v.Arr? && Blanks(here, 2 * indent) && Blanks(deeper, 2 * (indent + 1))
    ensures
      var lines := ItemTexts(v.items, 0, "\n" + deeper, indent + 1, fmt);
      Body(v, indent, fmt) == if v.items == [] then "[]" else "[" + Listed(lines) + "\n" + here + "]"
  {
    hide Listed, ItemsFrom, LineBreak, ItemTexts, Blanks;
    BreakIs(indent, here);
    BreakIs(indent + 1, deeper);
    NothingListed();
    ItemsListed(v.items, 0, indent + 1, fmt);
    var lines := ItemTexts(v.items, 0, "\n" + deeper, indent + 1, fmt);
    Enclosed('[', Listed(lines), "\n" + here, ']');
    assert Body(v, indent, fmt) == ['['] + ItemsFrom(v.items, 0, indent + 1, fmt) + (if v.items == [] then [] else LineBreak(indent)) + [']'];
  }

  lemma PrettyObject(v: Value, indent: nat, fmt: DoubleFormat, here: Bytes, deeper: Bytes)
    requires v.Obj? && Blanks(here, 2 * indent) && Blanks(deeper, 2 * (indent + 1))
    ensures
      var lines := MemberTexts(v.members, KeyOrder(v.members), 0, "\n" + deeper, ": ", indent + 1, fmt);
      Body(v, indent, fmt) == if v.members == map[] then "{}" else "{" + Listed(lines) + "\n" + here + "}"
  {
    hide Listed, MembersFrom, LineBreak, MemberTexts, Blanks, KeyOrder;
    BreakIs(indent, here);
    BreakIs(indent + 1, deeper);
    NothingListed();
    var ks := KeyOrder(v.members);
    MembersListed(v, ks, 0, indent + 1, fmt);
    var lines := MemberTexts(v.members, ks, 0, "\n" + deeper, ": ", indent + 1, fmt);
    Enclosed('{', Listed(lines), "\n" + here, '}');
    assert Body(v, indent, fmt) ==
      ['{'] + MembersFrom(v, ks, 0, indent + 1, fmt) + (if v.members == map[] then [] else LineBreak(indent)) + ['}'];
  }

  lemma BreakIs(indent: nat, blanks: Bytes)
    requires Blanks(blanks, 2 * indent)
    ensures LineBreak(indent) == "\n" + blanks
  {
    assert Spaces(indent * INDENT_WIDTH) == blanks;
  }
}
