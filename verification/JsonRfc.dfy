/** Which texts of RFC 8259 the parser accepts, and which texts it accepts beyond them. */
module JsonRfc {
  import opened ByteStrings
  import opened JsonValue
  import opened G = JsonGrammar
  import opened JsonSyntax
  import Utf8

  // ----- when a tree has a meaning -----

  /** The depth budget, on texts: a repeated name counts although its value is dropped. */
  predicate Fits(t: Tree, d: nat)
    decreases t, 0
  {
    match t
    case TArray(_, items) => d > 0 && ItemsFit(items, d - 1)
    case TObject(_, members) => d > 0 && MembersFit(members, d)
    case _ => true
  }

  predicate ItemsFit(items: seq<Item>, d: nat)
    decreases items, 1
  {
    items == [] || (Fits(items[0].tree, d) && ItemsFit(items[1..], d))
  }

  predicate MembersFit(members: seq<Member>, d: nat)
    decreases members, 1
  {
    members == [] || (Fits(members[0].value.tree, d) && MembersFit(members[1..], d))
  }

  /** Every string and every name. */
  function Strings(t: Tree): set<seq<Char>>
    decreases t, 0
  {
    match t
    case TString(chars) => {chars}
    case TArray(_, items) => ItemStrings(items)
    case TObject(_, members) => MemberStrings(members)
    case _ => {}
  }

  function ItemStrings(items: seq<Item>): set<seq<Char>>
    decreases items, 1
  {
    if items == [] then {} else Strings(items[0].tree) + ItemStrings(items[1..])
  }

  function MemberStrings(members: seq<Member>): set<seq<Char>>
    decreases members, 1
  {
    if members == [] then {} else {members[0].name} + Strings(members[0].value.tree) + MemberStrings(members[1..])
  }

  function Literals(t: Tree): set<Bytes>
    decreases t, 0
  {
    match t
    case TNumber(literal) => {literal}
    case TArray(_, items) => ItemLiterals(items)
    case TObject(_, members) => MemberLiterals(members)
    case _ => {}
  }

  function ItemLiterals(items: seq<Item>): set<Bytes>
    decreases items, 1
  {
    if items == [] then {} else Literals(items[0].tree) + ItemLiterals(items[1..])
  }

  function MemberLiterals(members: seq<Member>): set<Bytes>
    decreases members, 1
  {
    if members == [] then {} else Literals(members[0].value.tree) + MemberLiterals(members[1..])
  }

  /** Behind every high surrogate comes a low one, and before every low one a high one. */
  predicate Paired(chars: seq<Char>) {
    CharsOk(chars) &&
    (forall i | 0 <= i < |chars| && IsHigh(chars[i]) :: i + 1 < |chars| && IsLow(chars[i + 1])) &&
    (forall i | 0 <= i < |chars| && IsLow(chars[i]) :: i > 0 && IsHigh(chars[i - 1]))
  }

  lemma PairedBehind(chars: seq<Char>, n: nat)
    requires CharsOk(chars) && 0 < n <= |chars| && !IsHigh(chars[n - 1])
    requires (n == 1 && !IsLow(chars[0])) || (n == 2 && IsHigh(chars[0]) && IsLow(chars[1]))
    ensures Paired(chars) <==> Paired(chars[n..])
  {
    hide CharOk, UnitValue;
    var tail := chars[n..];
    forall i | 0 <= i < |tail| ensures tail[i] == chars[n + i] {
    }
    if Paired(chars) {
      forall i | 0 <= i < |tail| && IsHigh(tail[i]) ensures i + 1 < |tail| && IsLow(tail[i + 1]) {
        assert IsHigh(chars[n + i]);
      }
      forall i | 0 <= i < |tail| && IsLow(tail[i]) ensures i > 0 && IsHigh(tail[i - 1]) {
        assert IsLow(chars[n + i]);
      }
    }
    if Paired(tail) {
      forall i | 0 <= i < |chars| && IsHigh(chars[i]) ensures i + 1 < |chars| && IsLow(chars[i + 1]) {
        if i >= n {
          assert IsHigh(tail[i - n]);
          assert tail[i - n + 1] == chars[i + 1];
        }
      }
      forall i | 0 <= i < |chars| && IsLow(chars[i]) ensures i > 0 && IsHigh(chars[i - 1]) {
        if i >= n {
          assert IsLow(tail[i - n]);
          assert tail[i - n - 1] == chars[i - 1];
        }
      }
    }
  }

  lemma NotBoth(c: Char)
    requires CharOk(c)
    ensures !(IsHigh(c) && IsLow(c))
  {
  }

  lemma {:induction false} StringExists(chars: seq<Char>)
    requires CharsOk(chars)
    ensures StringOf(chars).Some? <==> Paired(chars)
    decreases |chars|
  {
    hide CharOk, UnitValue, Paired, OneBytes, PairBytes;
    if chars == [] {
      NothingToPair(chars);
    } else if IsLow(chars[0]) || (IsHigh(chars[0]) && !(|chars| > 1 && IsLow(chars[1]))) {
      Unpaired(chars);
    } else {
      var n := if IsHigh(chars[0]) then 2 else 1;
      NotBoth(chars[n - 1]);
      PairedBehind(chars, n);
      StringExists(chars[n..]);
    }
  }

  lemma NothingToPair(chars: seq<Char>)
    requires chars == []
    ensures Paired(chars)
  {
  }

  lemma Unpaired(chars: seq<Char>)
    requires CharsOk(chars) && chars != []
    requires IsLow(chars[0]) || (IsHigh(chars[0]) && !(|chars| > 1 && IsLow(chars[1])))
    ensures !Paired(chars)
  {
    hide UnitValue;
  }

  predicate Readable(strings: set<seq<Char>>, literals: set<Bytes>) {
    (forall x | x in strings :: Paired(x)) && (forall l | l in literals :: NumberOf(l).Some?)
  }

  lemma ReadableBoth(a: set<seq<Char>>, b: set<seq<Char>>, l: set<Bytes>, m: set<Bytes>)
    ensures Readable(a + b, l + m) <==> Readable(a, l) && Readable(b, m)
  {
    hide Paired, NumberOf;
  }

  lemma ReadableOne(x: seq<Char>, l: Bytes)
    ensures Readable({x}, {}) <==> Paired(x)
    ensures Readable({}, {l}) <==> NumberOf(l).Some?
    ensures Readable({}, {})
  {
    hide Paired, NumberOf;
  }

  /** Exactly when: the budget is kept, every surrogate has its partner, and every literal is a number
      that the parser can hold. */
  lemma {:induction false} MeaningExists(t: Tree, d: nat)
    requires WellFormed(t)
    ensures Meaning(t, d).Some? <==> Fits(t, d) && Readable(Strings(t), Literals(t))
    decreases t, 0
  {
    hide Readable, NumberOf, StringOf, Paired, ItemValues, MemberValues, ItemsOk, MembersOk, ItemsFit, MembersFit,
      ItemStrings, MemberStrings, ItemLiterals, MemberLiterals;
    match t {
      case TNull => ReadableOne([], []);
      case TBool(_) => ReadableOne([], []);
      case TNumber(literal) => ReadableOne([], literal);
      case TString(chars) =>
        ReadableOne(chars, []);
        StringExists(chars);
      case TArray(_, items) =>
        if d > 0 {
          ItemValuesExist(items, d - 1, []);
        }
      case TObject(_, members) => MemberValuesExist(members, d, map[]);
    }
  }

  lemma {:induction false} ItemValuesExist(items: seq<Item>, d: nat, acc: seq<Value>)
    requires ItemsOk(items)
    ensures ItemValues(items, d, acc).Some? <==> ItemsFit(items, d) && Readable(ItemStrings(items), ItemLiterals(items))
    decreases items, 1
  {
    hide Readable, Meaning, WellFormed, Fits, Strings, Literals;
    if items == [] {
      ReadableOne([], []);
    } else {
      FirstItem(items, d, acc);
      var t := items[0].tree;
      MeaningExists(t, d);
      ReadableBoth(Strings(t), ItemStrings(items[1..]), Literals(t), ItemLiterals(items[1..]));
      if Meaning(t, d).Some? {
        ItemValuesExist(items[1..], d, acc + [Meaning(t, d).value]);
      }
    }
  }

  lemma {:induction false} MemberValuesExist(members: seq<Member>, d: nat, acc: map<Bytes, Value>)
    requires MembersOk(members)
    ensures MemberValues(members, d, acc).Some? <==>
      MembersFit(members, d) && Readable(MemberStrings(members), MemberLiterals(members))
    decreases members, 1
  {
    hide Readable, Meaning, WellFormed, Fits, Strings, Literals, StringOf, Paired, CharsOk;
    if members == [] {
      ReadableOne([], []);
    } else {
      FirstMember(members, d, acc);
      var name, t := members[0].name, members[0].value.tree;
      StringExists(name);
      MeaningExists(t, d);
      ReadableOne(name, []);
      ReadableBoth({name}, Strings(t), {}, Literals(t));
      ReadableBoth({name} + Strings(t), MemberStrings(members[1..]), {} + Literals(t), MemberLiterals(members[1..]));
      assert {} + Literals(t) == Literals(t);
      if StringOf(name).Some? && Meaning(t, d).Some? {
        MemberValuesExist(members[1..], d, acc[StringOf(name).value := Meaning(t, d).value]);
      }
    }
  }

  // ----- numbers of RFC 8259 -----

  /** Section 6: no superfluous zero in front, and a digit behind the point and in the exponent. */
  predicate IsRfcNumber(s: Bytes) {
    IsUnsigned(if StartsWith(s, '-') then s[1..] else s)
  }

  predicate IsUnsigned(u: Bytes) {
    var whole := DigitSpan(u);
    (whole == 1 || (whole > 1 && u[0] != '0')) && IsFraction(u[whole..])
  }

  /** A fraction, if there is one, and an exponent, if there is one. */
  predicate IsFraction(v: Bytes) {
    if StartsWith(v, '.') then DigitSpan(v[1..]) > 0 && IsExponent(v[1..][DigitSpan(v[1..])..]) else IsExponent(v)
  }

  predicate IsExponent(w: Bytes) {
    w == [] || ((w[0] == 'e' || w[0] == 'E') && DropSign(w[1..]) != [] && AllDigits(DropSign(w[1..])))
  }

  lemma CollectedParts(a: Bytes, b: Bytes)
    requires Collected(a) && Collected(b)
    ensures Collected(a + b)
  {
  }

  lemma SpanCollected(s: Bytes)
    ensures Collected(s[..DigitSpan(s)])
  {
  }

  lemma DigitsCollected(s: Bytes)
    requires AllDigits(DropSign(s))
    ensures Collected(s)
  {
    var n := |s| - |DropSign(s)|;
    forall i | 0 <= i < |s| ensures IsNumberChar(s[i]) {
      assert i >= n ==> s[i] == DropSign(s)[i - n];
    }
  }

  lemma ExponentCollected(w: Bytes)
    requires IsExponent(w)
    ensures Collected(w)
  {
    if w != [] {
      DigitsCollected(w[1..]);
      CollectedParts([w[0]], w[1..]);
      assert w == [w[0]] + w[1..];
    }
  }

  lemma OneCollected(c: byte)
    requires IsNumberChar(c)
    ensures Collected([c])
  {
  }

  lemma FractionCollected(v: Bytes)
    requires IsFraction(v)
    ensures Collected(v)
  {
    hide Collected, IsExponent, DigitSpan;
    if StartsWith(v, '.') {
      var t := v[1..];
      var n := DigitSpan(t);
      ExponentCollected(t[n..]);
      SpanCollected(t);
      CollectedParts(t[..n], t[n..]);
      OneCollected('.');
      CollectedParts(['.'], t);
      assert t == t[..n] + t[n..] && v == ['.'] + t;
    } else {
      ExponentCollected(v);
    }
  }

  lemma UnsignedCollected(u: Bytes)
    requires IsUnsigned(u)
    ensures Collected(u)
  {
    hide Collected, IsFraction, DigitSpan;
    var n := DigitSpan(u);
    FractionCollected(u[n..]);
    SpanCollected(u);
    CollectedParts(u[..n], u[n..]);
    assert u == u[..n] + u[n..];
  }

  lemma RfcNumberCollected(s: Bytes)
    requires IsRfcNumber(s)
    ensures Collected(s)
  {
    hide Collected, IsUnsigned;
    if StartsWith(s, '-') {
      UnsignedCollected(s[1..]);
      OneCollected('-');
      CollectedParts(['-'], s[1..]);
      assert s == ['-'] + s[1..];
    } else {
      UnsignedCollected(s);
    }
  }

  lemma RfcNumberStarts(s: Bytes)
    requires IsRfcNumber(s)
    ensures s != [] && (IsDigit(s[0]) || s[0] == '-')
    ensures DropSign(s) == if StartsWith(s, '-') then s[1..] else s
  {
    hide IsFraction;
    var u := if StartsWith(s, '-') then s[1..] else s;
    assert IsDigit(u[0]);
  }

  /** Every number of RFC 8259 is one that the parser collects. */
  lemma RfcNumberOk(s: Bytes)
    requires IsRfcNumber(s)
    ensures NumberOk(s)
  {
    hide Collected, IsRfcNumber;
    RfcNumberCollected(s);
    RfcNumberStarts(s);
  }

  /** The tail of a literal that `strtod` takes. */
  lemma FractionTail(v: Bytes)
    ensures var fraction := if StartsWith(v, '.') then DigitSpan(v[1..]) else 0;
      var w := if StartsWith(v, '.') then v[1 + fraction..] else v;
      IsFraction(v) <==> (StartsWith(v, '.') ==> fraction > 0) && IsExponent(w)
  {
    hide IsExponent;
    if StartsWith(v, '.') {
      assert v[1..][DigitSpan(v[1..])..] == v[1 + DigitSpan(v[1..])..];
    }
  }

  lemma {:induction false} AllDigitsSpan(u: Bytes)
    requires AllDigits(u)
    ensures DigitSpan(u) == |u|
  {
    if u != [] {
      assert forall i | 0 <= i < |u[1..]| :: u[1..][i] == u[i + 1];
      AllDigitsSpan(u[1..]);
    }
  }

  /** A digit in front of the point, no zero in front of other digits, and a digit behind the point. */
  predicate HasRfcDigits(s: Bytes) {
    var u := DropSign(s);
    var whole := DigitSpan(u);
    whole > 0 && (whole > 1 ==> u[0] != '0') && (StartsWith(u[whole..], '.') ==> DigitSpan(u[whole..][1..]) > 0)
  }

  /** What is left of an accepted literal behind its whole part is well formed but for the digit
      behind the point. */
  lemma AcceptedTail(s: Bytes)
    requires NumberOf(s).Some?
    ensures var v := DropSign(s)[DigitSpan(DropSign(s))..];
      IsFraction(v) <==> (StartsWith(v, '.') ==> DigitSpan(v[1..]) > 0)
  {
    hide RoundsToInfinity, AllDigits, IsFraction;
    var u := DropSign(s);
    var v := u[DigitSpan(u)..];
    FractionTail(v);
    if Int64Of(s).Some? {
      AllDigitsSpan(u);
      assert v == [];
    }
  }

  lemma MinusIsTheSign(s: Bytes)
    requires NumberOk(s)
    ensures DropSign(s) == if StartsWith(s, '-') then s[1..] else s
  {
    hide Collected;
  }

  /** Exactly which of the numbers the parser accepts are numbers of RFC 8259. */
  lemma RfcNumberIff(s: Bytes)
    requires NumberOk(s) && NumberOf(s).Some?
    ensures IsRfcNumber(s) <==> HasRfcDigits(s)
  {
    hide NumberOk, NumberOf, IsFraction, DigitSpan;
    MinusIsTheSign(s);
    AcceptedTail(s);
  }

  /** A tree of RFC 8259: the grammar asks nothing more of it than of its literals. */
  predicate IsRfc(t: Tree) {
    WellFormed(t) && forall l | l in Literals(t) :: IsRfcNumber(l)
  }

  /** Exactly which of the texts the parser accepts are texts of RFC 8259. */
  lemma AcceptedIsRfcIff(t: Tree, d: nat)
    requires WellFormed(t) && Meaning(t, d).Some?
    ensures IsRfc(t) <==> forall l | l in Literals(t) :: HasRfcDigits(l)
  {
    hide Meaning, WellFormed, Fits, NumberOk, NumberOf, IsRfcNumber, HasRfcDigits, Paired, Strings, Literals;
    MeaningExists(t, d);
    forall l | l in Literals(t) ensures IsRfcNumber(l) <==> HasRfcDigits(l) {
      LiteralsOk(t, l);
      RfcNumberIff(l);
    }
  }

  lemma {:induction false} LiteralsOk(t: Tree, l: Bytes)
    requires WellFormed(t) && l in Literals(t)
    ensures NumberOk(l)
    decreases t, 0
  {
    hide NumberOk;
    if t.TArray? {
      ItemLiteralsOk(t.items, l);
    } else if t.TObject? {
      MemberLiteralsOk(t.members, l);
    }
  }

  lemma {:induction false} ItemLiteralsOk(items: seq<Item>, l: Bytes)
    requires ItemsOk(items) && l in ItemLiterals(items)
    ensures NumberOk(l)
    decreases items, 1
  {
    hide NumberOk;
    assert ItemOk(items[0]);
    if l in Literals(items[0].tree) {
      LiteralsOk(items[0].tree, l);
    } else {
      ItemLiteralsOk(items[1..], l);
    }
  }

  lemma {:induction false} MemberLiteralsOk(members: seq<Member>, l: Bytes)
    requires MembersOk(members) && l in MemberLiterals(members)
    ensures NumberOk(l)
    decreases members, 1
  {
    hide NumberOk;
    assert MemberOk(members[0]) && ItemOk(members[0].value);
    if l in Literals(members[0].value.tree) {
      LiteralsOk(members[0].value.tree, l);
    } else {
      MemberLiteralsOk(members[1..], l);
    }
  }

  // ----- texts of RFC 8259 -----

  lemma WsEndsNumber(s: Bytes)
    requires AllWs(s)
    ensures !StartsLikeNumber(s)
  {
    assert s != [] ==> IsWs(s[0]);
  }

  /** A literal of RFC 8259 that no int64 and no finite double can hold. */
  predicate TooLarge(literal: Bytes) {
    Int64Of(literal).None? && IsDecimalLiteral(literal) && RoundsToInfinity(literal)
  }

  lemma RfcNumberIsDecimal(s: Bytes)
    requires IsRfcNumber(s)
    ensures IsDecimalLiteral(s)
  {
    hide AllDigits, IsFraction, DigitSpan, DropSign;
    RfcNumberStarts(s);
    var u := DropSign(s);
    FractionTail(u[DigitSpan(u)..]);
  }

  lemma RfcNumberHeld(s: Bytes)
    requires IsRfcNumber(s)
    ensures NumberOf(s).Some? <==> !TooLarge(s)
  {
    hide RoundsToInfinity, IsDecimalLiteral, Int64Of, IsRfcNumber;
    RfcNumberIsDecimal(s);
  }

  /** Every text of RFC 8259: any white space, any way to write a character, any order and repetition of
      names. It is accepted, with its value, if and only if it keeps the depth budget, every surrogate
      has its partner and no number is too large. */
  lemma RfcTextsExactly(gap: Bytes, t: Tree, end: Bytes)
    requires AllWs(gap) && IsRfc(t) && AllWs(end)
    ensures Parse(gap + Put(t, end)) == Meaning(t, 100)
    ensures Meaning(t, 100).Some? <==>
      Fits(t, 100) && (forall x | x in Strings(t) :: Paired(x)) && (forall l | l in Literals(t) :: !TooLarge(l))
  {
    hide ValueFrom, WellFormed, Fits, Meaning, Put, AllWs, Paired, Strings, Literals, NumberOf, TooLarge, IsRfcNumber;
    WsEndsNumber(end);
    SpelledIsRead(gap + Put(t, end), DEFAULT_MAX_DEPTHS, gap, t, end);
    MeaningExists(t, DEFAULT_MAX_DEPTHS);
    forall l | l in Literals(t) ensures NumberOf(l).Some? <==> !TooLarge(l) {
      RfcNumberHeld(l);
    }
  }

  /** In particular all that fits is accepted. */
  lemma RfcTextsAreAccepted(gap: Bytes, t: Tree, end: Bytes)
    requires AllWs(gap) && IsRfc(t) && AllWs(end)
    requires Fits(t, 100) && (forall x | x in Strings(t) :: Paired(x)) && (forall l | l in Literals(t) :: !TooLarge(l))
    ensures Parse(gap + Put(t, end)).Some? && Parse(gap + Put(t, end)) == Meaning(t, 100)
  {
    hide *;
    RfcTextsExactly(gap, t, end);
  }

  lemma LoneIsHigh()
    ensures CharOk(Unit("d800")) && IsHigh(Unit("d800")) && !IsLow(Unit("d800"))
  {
    assert UnitValue(Unit("d800")) == 0xd800;
  }

  lemma LoneText()
    ensures Put(TString([Unit("d800")]), []) == "\"\\ud800\""
  {
    var c := Unit("d800");
    assert [c][1..] == [] && PutChars([], ['"']) == ['"'];
    assert PutChars([c], ['"']) == CharText(c) + ['"'];
    assert ['"'] + [] == ['"'];
  }

  lemma LoneIsRfc()
    ensures IsRfc(TString([Unit("d800")]))
  {
    LoneIsHigh();
    assert CharsOk([Unit("d800")]);
  }

  lemma LoneMeansNothing()
    requires CharsOk([Unit("d800")])
    ensures StringOf([Unit("d800")]) == None
  {
    hide IsHigh, IsLow;
    LoneIsHigh();
  }

  lemma StringTree(chars: seq<Char>, d: nat)
    requires CharsOk(chars) && StringOf(chars) == None
    ensures WellFormed(TString(chars)) && Meaning(TString(chars), d) == None
  {
    hide StringOf, CharsOk;
  }

  /** A text of RFC 8259 that is refused: a surrogate alone. */
  lemma LoneSurrogateRefused()
    ensures IsRfc(TString([Unit("d800")])) && Put(TString([Unit("d800")]), []) == "\"\\ud800\""
    ensures Parse("\"\\ud800\"") == None
  {
    hide ValueFrom, Put, CharsOk, StringOf, Meaning, Literals, IsRfc, WellFormed;
    var cs, s: Bytes := [Unit("d800")], "\"\\ud800\"";
    LoneIsRfc();
    LoneText();
    assert CharsOk(cs) by {
      LoneCharsOk();
    }
    LoneMeansNothing();
    StringTree(cs, DEFAULT_MAX_DEPTHS);
    assert [] + s == s;
    SpelledIsRead(s, DEFAULT_MAX_DEPTHS, [], TString(cs), []);
  }

  lemma LoneCharsOk()
    ensures CharsOk([Unit("d800")])
  {
    LoneIsHigh();
  }

  // ----- texts that only the parser takes -----

  lemma LiteralAlone(literal: Bytes)
    requires NumberOk(literal)
    ensures Parse(literal) == NumberOf(literal)
  {
    hide ValueFrom, NumberOk, NumberOf;
    var t := TNumber(literal);
    assert Put(t, []) == literal && [] + Put(t, []) == literal;
    SpelledIsRead(literal, DEFAULT_MAX_DEPTHS, [], t, []);
  }

  lemma OneDigitValue(c: byte)
    requires IsDigit(c)
    ensures AllDigits([c]) && DigitsValue([c]) == c as int - '0' as int && DigitsValue([c]) <= 9
  {
    assert [c][..0] == [];
    assert DigitsValue([]) == 0;
  }

  lemma ZeroOneSpan()
    ensures DigitSpan("01") == 2 && "01"[0] == '0' && AllDigits("01") && NumberOk("01")
  {
    assert "01"[1..] == "1" && "1"[1..] == [] && DigitSpan([]) == 0;
    assert DigitSpan("1") == 1;
  }

  lemma ZeroOneValue()
    requires AllDigits("01")
    ensures DigitsValue("01") == 1
  {
    OneDigitValue('0');
    assert "01"[..1] == ['0'];
  }

  /** A zero in front: the parser takes it for the integer. */
  lemma LeadingZeroAccepted()
    ensures !IsRfcNumber("01") && Parse("01") == Some(Int(1))
  {
    hide DigitSpan, DigitsValue, AllDigits, NumberOk, RoundsToInfinity, IsDecimalLiteral, IsFraction;
    ZeroOneSpan();
    ZeroOneValue();
    LiteralAlone("01");
  }

  lemma {:induction false} PowerGrows(e: nat)
    ensures Power(2, e) > e
  {
    if e > 0 {
      PowerGrows(e - 1);
    }
  }

  lemma ProductGrows(a: nat, b: nat)
    requires b > 0
    ensures a * b >= a
  {
  }

  lemma InfinityIsLarge()
    ensures InfinityFrom() > 9
  {
    hide Power;
    PowerGrows(54);
    PowerGrows(970);
    ProductGrows(Power(2, 54) - 1, Power(2, 970));
  }

  lemma PointParts()
    ensures DropSign("1.") == "1." && DigitSpan("1.") == 1 && "1."[..1] == "1" && "1."[1..] == "."
    ensures "."[1..] == [] && DigitSpan([]) == 0 && Int64Of("1.") == None
  {
    assert DigitSpan(".") == 0;
    assert !IsDigit("1."[1]);
  }

  lemma PointIsFinite()
    ensures IsDecimalLiteral("1.") && !RoundsToInfinity("1.")
  {
    hide InfinityFrom, DigitsValue, Power, DigitSpan, AllDigits, DropSign;
    PointParts();
    OneDigitValue('1');
    InfinityIsLarge();
    NoPower();
    assert "1."[..1] + [] == ['1'];
  }

  /** No digit behind the point. */
  lemma BarePointAccepted()
    ensures !IsRfcNumber("1.") && Parse("1.") == Some(Float("1."))
  {
    hide RoundsToInfinity, IsDecimalLiteral, DigitSpan, Int64Of;
    PointParts();
    PointIsFinite();
    LiteralAlone("1.");
  }

  lemma NoPower()
    ensures Power(10, 0) == 1 && Power(10, 1) == 10
  {
    assert Power(10, 0) == 1;
  }

  lemma HalfParts()
    ensures DropSign("-.5") == ".5" && DigitSpan(".5") == 0 && DigitSpan("5") == 1
    ensures ".5"[0..] == ".5" && ".5"[1..] == "5" && ".5"[1..2] == "5" && ".5"[2..] == []
    ensures !AllDigits(".5") && Int64Of("-.5") == None
  {
    assert "5"[1..] == [] && DigitSpan([]) == 0;
    assert !IsDigit(".5"[0]);
    assert "-.5"[1..] == ".5";
  }

  lemma HalfIsFinite()
    ensures IsDecimalLiteral("-.5") && !RoundsToInfinity("-.5")
  {
    hide InfinityFrom, DigitsValue, Power, DigitSpan, AllDigits, DropSign;
    HalfParts();
    OneDigitValue('5');
    InfinityIsLarge();
    NoPower();
    var u: Bytes := ".5";
    assert u[..0] + u[1..2] == ['5'];
  }

  /** No digit in front of it. */
  lemma BareFractionAccepted()
    ensures !IsRfcNumber("-.5") && Parse("-.5") == Some(Float("-.5"))
  {
    hide RoundsToInfinity, IsDecimalLiteral, DigitSpan, Int64Of;
    HalfParts();
    HalfIsFinite();
    assert "-.5"[1..] == ".5";
    LiteralAlone("-.5");
  }
}
