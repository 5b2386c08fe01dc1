/** Numbers taken apart: what a literal is made of, what it is worth, which ones the parser can hold,
    and how an integer is printed. */
module JsonNumbers {
  import opened ByteStrings
  import opened JsonValue
  import T = JsonText
  import opened G = JsonGrammar
  import JsonRfc
  import JsonRoundTrip

  const FIGURES: Bytes := "0123456789"

  /** `c` is the decimal digit for `k`. */
  predicate IsFigure(c: byte, k: int) {
    0 <= k < 10 && c == FIGURES[k]
  }

  lemma FigureExact(c: byte, k: int)
    ensures IsFigure(c, k) <==> IsDigit(c) && c as int - '0' as int == k
  {
    if 0 <= k < 10 {
      assert k == 0 || k == 1 || k == 2 || k == 3 || k == 4 || k == 5 || k == 6 || k == 7 || k == 8 || k == 9;
    }
  }

  /** The characters that the parser collects for a number. */
  lemma NumberCharExact(c: byte)
    ensures IsNumberChar(c) <==> (exists k :: IsFigure(c, k)) || c in ['+', '-', '.', 'e', 'E']
  {
    hide IsFigure;
    FigureExact(c, c as int - '0' as int);
    forall k ensures IsFigure(c, k) ==> IsDigit(c) {
      FigureExact(c, k);
    }
  }

  /** Digits are worth what they are in base ten. */
  lemma DigitsValueExact(s: Bytes, c: byte, k: int)
    requires AllDigits(s) && IsFigure(c, k)
    ensures DigitsValue([]) == 0
    ensures AllDigits(s + [c]) && DigitsValue(s + [c]) == DigitsValue(s) * 10 + k
  {
    FigureExact(c, k);
    assert (s + [c])[..|s|] == s;
  }

  // ----- literals -----

  datatype Exponent = NoExponent | Exponent(letter: byte, sign: Bytes, digits: Bytes)

  datatype Literal = Literal(sign: Bytes, whole: Bytes, fraction: Option<Bytes>, exponent: Exponent)

  function ExponentText(e: Exponent): Bytes {
    match e
    case NoExponent => []
    case Exponent(letter, sign, digits) => [letter] + (sign + digits)
  }

  function FractionText(fraction: Option<Bytes>): Bytes {
    match fraction
    case None => []
    case Some(digits) => ['.'] + digits
  }

  function Text(l: Literal): Bytes {
    l.sign + (l.whole + (FractionText(l.fraction) + ExponentText(l.exponent)))
  }

  predicate IsSign(s: Bytes) {
    s == [] || s == ['-'] || s == ['+']
  }

  function FractionDigits(l: Literal): Bytes {
    if l.fraction.Some? then l.fraction.value else []
  }

  predicate ExponentOk(e: Exponent) {
    e.Exponent? ==> (e.letter == 'e' || e.letter == 'E') && IsSign(e.sign) && e.digits != [] && AllDigits(e.digits)
  }

  /** A sign or none, digits on at least one side of the point, and an exponent or none. */
  predicate IsLiteral(l: Literal) {
    IsSign(l.sign) && AllDigits(l.whole) && AllDigits(FractionDigits(l)) && l.whole + FractionDigits(l) != [] &&
    ExponentOk(l.exponent)
  }

  lemma {:induction false} SpanOf(digits: Bytes, rest: Bytes)
    requires AllDigits(digits) && (rest == [] || !IsDigit(rest[0]))
    ensures DigitSpan(digits + rest) == |digits|
  {
    if digits == [] {
      assert digits + rest == rest;
    } else {
      assert (digits + rest)[1..] == digits[1..] + rest;
      assert AllDigits(digits[1..]) by {
        assert forall i | 0 <= i < |digits| - 1 :: digits[1..][i] == digits[i + 1];
      }
      SpanOf(digits[1..], rest);
    }
  }

  lemma SignDropped(sign: Bytes, rest: Bytes)
    requires IsSign(sign) && (rest == [] || (rest[0] != '-' && rest[0] != '+'))
    ensures DropSign(sign + rest) == rest
    ensures StartsWith(sign + rest, '-') <==> sign == ['-']
  {
    assert sign == [] ==> sign + rest == rest;
  }

  lemma ExponentStart(e: Exponent)
    requires ExponentOk(e)
    ensures var t := ExponentText(e);
      t == [] || ((t[0] == 'e' || t[0] == 'E') && t[1..] == e.sign + e.digits && DropSign(t[1..]) == e.digits
        && (StartsWith(t[1..], '-') <==> e.sign == ['-']))
    ensures ExponentText(e) == [] <==> e.NoExponent?
  {
    if e.Exponent? {
      SignDropped(e.sign, e.digits);
    }
  }

  /** What stands behind the whole part of a literal, as the reader takes it apart. */
  lemma TailRead(l: Literal)
    requires IsLiteral(l)
    ensures
      var v := FractionText(l.fraction) + ExponentText(l.exponent);
      var n := if StartsWith(v, '.') then DigitSpan(v[1..]) else 0;
      (StartsWith(v, '.') <==> l.fraction.Some?) && n == |FractionDigits(l)| &&
      (v == [] || !IsDigit(v[0])) &&
      (n > 0 ==> v[1..1 + n] == FractionDigits(l)) &&
      (if StartsWith(v, '.') then v[1 + n..] else v) == ExponentText(l.exponent)
  {
    hide ExponentText, DigitSpan;
    ExponentStart(l.exponent);
    if l.fraction.Some? {
      PointRead(l.fraction.value, ExponentText(l.exponent));
    } else {
      assert [] + ExponentText(l.exponent) == ExponentText(l.exponent);
    }
  }

  lemma PointRead(digits: Bytes, e: Bytes)
    requires AllDigits(digits) && (e == [] || !IsDigit(e[0]))
    ensures
      var v := (['.'] + digits) + e;
      StartsWith(v, '.') && DigitSpan(v[1..]) == |digits| && v[1..1 + |digits|] == digits && v[1 + |digits|..] == e
  {
    hide DigitSpan;
    var v := (['.'] + digits) + e;
    assert v[1..] == digits + e;
    SpanOf(digits, e);
  }

  /** The digits, scaled by the point and the exponent, are at least the least number that a double
      rounds to infinity. */
  predicate ReachesFrom(digits: Bytes, fraction: nat, power: nat, negative: bool)
    requires AllDigits(digits)
  {
    var exponent: int := power;
    var scale := (if negative then -exponent else exponent) - fraction;
    if scale >= 0 then DigitsValue(digits) * Power(10, scale) >= InfinityFrom()
    else DigitsValue(digits) >= InfinityFrom() * Power(10, -scale)
  }

  predicate Reaches(l: Literal)
    requires IsLiteral(l)
  {
    ReachesFrom(Joined(l.whole, FractionDigits(l)), |FractionDigits(l)|,
                if l.exponent.NoExponent? then 0 else DigitsValue(l.exponent.digits),
                l.exponent.Exponent? && l.exponent.sign == ['-'])
  }

  function Joined(a: Bytes, b: Bytes): (r: Bytes)
    requires AllDigits(a) && AllDigits(b)
    ensures AllDigits(r)
  {
    a + b
  }

  lemma WholeRead(l: Literal)
    requires IsLiteral(l)
    ensures
      var v := FractionText(l.fraction) + ExponentText(l.exponent);
      DropSign(Text(l)) == l.whole + v && DigitSpan(l.whole + v) == |l.whole| &&
      (l.whole + v)[..|l.whole|] == l.whole && (l.whole + v)[|l.whole|..] == v
  {
    hide DigitSpan;
    var v := FractionText(l.fraction) + ExponentText(l.exponent);
    TailRead(l);
    SpanOf(l.whole, v);
    ExponentStart(l.exponent);
    SignDropped(l.sign, l.whole + v);
  }

  /** The pieces that the reader takes a literal for. */
  datatype Pieces = Pieces(u: Bytes, whole: nat, v: Bytes, fraction: nat, w: Bytes)

  function PiecesOf(s: Bytes): (p: Pieces)
    ensures p.whole + |p.v| == |p.u|
    ensures StartsWith(p.v, '.') ==> 1 + p.fraction + |p.w| == |p.v|
    ensures !StartsWith(p.v, '.') ==> p.fraction == 0
  {
    var u := DropSign(s);
    var whole := DigitSpan(u);
    var v := u[whole..];
    var fraction := if StartsWith(v, '.') then DigitSpan(v[1..]) else 0;
    Pieces(u, whole, v, fraction, if StartsWith(v, '.') then v[1 + fraction..] else v)
  }

  predicate IsTail(w: Bytes) {
    w == [] || ((w[0] == 'e' || w[0] == 'E') && DropSign(w[1..]) != [] && AllDigits(DropSign(w[1..])))
  }

  lemma DecimalByPieces(s: Bytes)
    ensures IsDecimalLiteral(s) <==> PiecesOf(s).whole + PiecesOf(s).fraction > 0 && IsTail(PiecesOf(s).w)
  {
    hide DigitSpan, AllDigits;
  }

  lemma PiecesOfLiteral(l: Literal)
    requires IsLiteral(l)
    ensures
      var v := FractionText(l.fraction) + ExponentText(l.exponent);
      PiecesOf(Text(l)) == Pieces(l.whole + v, |l.whole|, v, |FractionDigits(l)|, ExponentText(l.exponent))
  {
    hide DigitSpan, Text, FractionText, ExponentText, DropSign;
    TailRead(l);
    WholeRead(l);
  }

  /** Every such text is a decimal literal ... */
  lemma LiteralIsDecimal(l: Literal)
    requires IsLiteral(l)
    ensures IsDecimalLiteral(Text(l))
  {
    hide PiecesOf, Text, IsDecimalLiteral, FractionText, ExponentText;
    PiecesOfLiteral(l);
    DecimalByPieces(Text(l));
    ExponentStart(l.exponent);
  }

  function DigitsIn(p: Pieces): Bytes
    requires p.whole <= |p.u| && (p.fraction > 0 ==> 1 + p.fraction <= |p.v|)
  {
    p.u[..p.whole] + (if p.fraction > 0 then p.v[1..1 + p.fraction] else [])
  }

  lemma InfinityByPieces(s: Bytes)
    requires IsDecimalLiteral(s)
    ensures
      var p := PiecesOf(s);
      p.whole <= |p.u| && (p.fraction > 0 ==> 1 + p.fraction <= |p.v|) && AllDigits(DigitsIn(p)) &&
      (p.w != [] ==> AllDigits(DropSign(p.w[1..]))) &&
      (RoundsToInfinity(s) <==>
        ReachesFrom(DigitsIn(p), p.fraction, if p.w == [] then 0 else DigitsValue(DropSign(p.w[1..])),
                    p.w != [] && StartsWith(p.w[1..], '-')))
  {
    DigitsInOk(s);
    DecimalByPieces(s);
    hide Power, InfinityFrom, DigitsValue, AllDigits, DigitSpan, DropSign, IsDecimalLiteral;
  }

  lemma DigitsInOk(s: Bytes)
    ensures
      var p := PiecesOf(s);
      p.whole <= |p.u| && (p.fraction > 0 ==> 1 + p.fraction <= |p.v|) && AllDigits(DigitsIn(p))
  {
    hide PiecesOf;
    PiecesFit(s);
    var p := PiecesOf(s);
    if p.fraction > 0 {
      assert DigitsIn(p) == Joined(p.u[..p.whole], p.v[1..1 + p.fraction]);
    } else {
      assert DigitsIn(p) == p.u[..p.whole];
    }
  }

  /** ... and too large exactly when its number is. */
  lemma LiteralReaches(l: Literal)
    requires IsLiteral(l) && IsDecimalLiteral(Text(l))
    ensures RoundsToInfinity(Text(l)) <==> Reaches(l)
  {
    hide PiecesOf, Text, IsDecimalLiteral, RoundsToInfinity, FractionText, ExponentText, ReachesFrom, DropSign, DigitsValue;
    InfinityByPieces(Text(l));
    PiecesOfLiteral(l);
    TailRead(l);
    WholeRead(l);
    ExponentStart(l.exponent);
    assert l.whole + [] == l.whole;
  }

  lemma LiteralRead(l: Literal)
    requires IsLiteral(l)
    ensures IsDecimalLiteral(Text(l))
    ensures RoundsToInfinity(Text(l)) <==> Reaches(l)
  {
    hide *;
    LiteralIsDecimal(l);
    LiteralReaches(l);
  }

  lemma SpanDigits(u: Bytes)
    ensures AllDigits(u[..DigitSpan(u)])
  {
  }

  lemma SignOf(s: Bytes)
    ensures var u := DropSign(s);
      |u| <= |s| && IsSign(s[..|s| - |u|]) && s == s[..|s| - |u|] + u
  {
  }

  /** And every decimal literal is such a text. */
  lemma LiteralOf(s: Bytes) returns (l: Literal)
    requires IsDecimalLiteral(s)
    ensures IsLiteral(l) && Text(l) == s
  {
    hide *;
    DecimalByPieces(s);
    var p := PiecesOf(s);
    SignOf(s);
    PiecesFit(s);
    var e := ExponentOf(p.w);
    var fraction := FractionOf(p.v, p.fraction, p.w);
    l := Literal(s[..|s| - |p.u|], p.u[..p.whole], fraction, e);
    Assembled(l, s, p);
  }

  /** How the pieces make up the text again. */
  lemma PiecesFit(s: Bytes)
    ensures
      var p := PiecesOf(s);
      p.u == DropSign(s) && p.whole <= |p.u| && AllDigits(p.u[..p.whole]) && p.u == p.u[..p.whole] + p.v &&
      (if StartsWith(p.v, '.') then 1 + p.fraction <= |p.v| && p.w == p.v[1 + p.fraction..] && AllDigits(p.v[1..1 + p.fraction])
       else p.fraction == 0 && p.w == p.v)
  {
    hide DropSign;
    var p := PiecesOf(s);
    SpanDigits(p.u);
    if StartsWith(p.v, '.') {
      SpanDigits(p.v[1..]);
      assert p.v[1..1 + p.fraction] == p.v[1..][..p.fraction];
    }
  }

  lemma FractionOf(v: Bytes, n: nat, w: Bytes) returns (fraction: Option<Bytes>)
    requires if StartsWith(v, '.') then 1 + n <= |v| && w == v[1 + n..] && AllDigits(v[1..1 + n]) else n == 0 && w == v
    ensures v == FractionText(fraction) + w && (fraction.Some? ==> |fraction.value| == n && AllDigits(fraction.value))
    ensures fraction.None? ==> n == 0
  {
    if StartsWith(v, '.') {
      fraction := Some(v[1..1 + n]);
    } else {
      fraction := None;
    }
  }

  lemma Assembled(l: Literal, s: Bytes, p: Pieces)
    requires s == l.sign + p.u && p.u == l.whole + p.v && p.v == FractionText(l.fraction) + p.w && p.w == ExponentText(l.exponent)
    requires IsSign(l.sign) && AllDigits(l.whole) && ExponentOk(l.exponent)
    requires l.fraction.Some? ==> AllDigits(l.fraction.value) && |l.fraction.value| == p.fraction
    requires (l.fraction.None? ==> p.fraction == 0) && |l.whole| == p.whole && p.whole + p.fraction > 0
    ensures IsLiteral(l) && Text(l) == s
  {
    hide ExponentText, FractionText, ExponentOk;
  }

  lemma ExponentOf(w: Bytes) returns (e: Exponent)
    requires IsTail(w)
    ensures ExponentOk(e) && ExponentText(e) == w
  {
    if w == [] {
      e := NoExponent;
    } else {
      var t := w[1..];
      var digits := DropSign(t);
      e := Exponent(w[0], t[..|t| - |digits|], digits);
      assert t == e.sign + digits && w == [w[0]] + t;
    }
  }

  lemma DecimalExact(s: Bytes)
    ensures IsDecimalLiteral(s) <==> exists l :: IsLiteral(l) && Text(l) == s
  {
    hide IsLiteral, Text, IsDecimalLiteral;
    if IsDecimalLiteral(s) {
      var l := LiteralOf(s);
    }
    if l :| IsLiteral(l) && Text(l) == s {
      LiteralRead(l);
    }
  }

  /** Nothing but a sign and digits, worth `i`. */
  predicate Integral(sign: Bytes, digits: Bytes, i: int) {
    IsSign(sign) && digits != [] && AllDigits(digits) &&
    var n: int := DigitsValue(digits);
    i == if sign == ['-'] then -n else n
  }

  ghost predicate SpellsInt(s: Bytes, i: int) {
    exists sign: Bytes, digits: Bytes :: s == sign + digits && Integral(sign, digits, i)
  }

  /** An integer is read when the text is one and an int64 can hold it. */
  lemma Int64Exact(s: Bytes, i: int)
    ensures Int64Of(s) == Some(i) <==> SpellsInt(s, i) && -9223372036854775808 <= i <= 9223372036854775807
  {
    hide DigitsValue;
    if Int64Of(s).Some? {
      var digits := DropSign(s);
      var sign := s[..|s| - |digits|];
      assert s == sign + digits;
      assert Integral(sign, digits, Int64Of(s).value);
    }
    if sign: Bytes, digits: Bytes :| s == sign + digits && Integral(sign, digits, i) {
      SignDropped(sign, digits);
    }
  }

  /** What the parser makes of a number, in every case: an integer that an int64 can hold; any other
      literal, kept as it is, unless a double would round it to infinity; or a failure. */
  lemma NumberExact(s: Bytes, v: Value)
    ensures NumberOf(s) == Some(v) <==>
      (exists i :: v == Int(i) && SpellsInt(s, i) && -9223372036854775808 <= i <= 9223372036854775807) ||
      (v == Float(s) && !(exists i :: SpellsInt(s, i) && -9223372036854775808 <= i <= 9223372036854775807) &&
       exists l :: IsLiteral(l) && Text(l) == s && !Reaches(l))
  {
    hide SpellsInt, IsLiteral, Text, IsDecimalLiteral, RoundsToInfinity, Int64Of, Reaches;
    forall i ensures Int64Of(s) == Some(i) <==> SpellsInt(s, i) && -9223372036854775808 <= i <= 9223372036854775807 {
      Int64Exact(s, i);
    }
    if IsDecimalLiteral(s) {
      var l := LiteralOf(s);
      LiteralRead(l);
    }
    if l :| IsLiteral(l) && Text(l) == s && !Reaches(l) {
      LiteralRead(l);
    }
  }

  lemma PowerStep(b: nat, e: nat)
    ensures Power(b, 0) == 1 && Power(b, e + 1) == b * Power(b, e)
  {
  }

  lemma Associate(x: nat, y: nat, z: nat)
    ensures (x * y) * z == x * (y * z)
  {
  }

  lemma {:induction false} PowerSum(b: nat, m: nat, n: nat)
    ensures Power(b, m + n) == Power(b, m) * Power(b, n)
    decreases m
  {
    hide Power;
    PowerStep(b, 0);
    if m > 0 {
      PowerSum(b, m - 1, n);
      PowerStep(b, m - 1);
      PowerStep(b, m - 1 + n);
      Associate(b, Power(b, m - 1), Power(b, n));
    }
  }

  /** From where on a double is infinite: half way between the largest one, 53 ones in binary and 971
      zeros, and two to the 1024th. */
  lemma LimitIsMidpoint()
    ensures 2 * InfinityFrom() == (Power(2, 53) - 1) * Power(2, 971) + Power(2, 1024)
  {
    hide Power;
    PowerStep(2, 0);
    PowerSum(2, 1, 53);
    PowerSum(2, 1, 970);
    PowerSum(2, 53, 971);
    Midpoint(Power(2, 53), Power(2, 970));
  }

  lemma Midpoint(a: nat, b: nat)
    ensures 2 * ((2 * a - 1) * b) == (a - 1) * (2 * b) + a * (2 * b)
  {
  }

  predicate IsRfcLiteral(l: Literal) {
    l.sign != ['+'] && l.whole != [] && (|l.whole| > 1 ==> l.whole[0] != '0') && l.fraction != Some([])
  }

  /** `IsUnsigned` on what stands behind the sign. */
  lemma UnsignedParts(l: Literal)
    requires IsLiteral(l)
    ensures
      var v := FractionText(l.fraction) + ExponentText(l.exponent);
      JsonRfc.IsUnsigned(l.whole + v) <==> l.whole != [] && (|l.whole| > 1 ==> l.whole[0] != '0') && l.fraction != Some([])
  {
    hide DigitSpan, FractionText, ExponentText, Text;
    var v := FractionText(l.fraction) + ExponentText(l.exponent);
    TailRead(l);
    WholeRead(l);
    ExponentStart(l.exponent);
    JsonRfc.FractionTail(v);
  }

  lemma NotUnsigned(u: Bytes)
    requires u != [] && !IsDigit(u[0])
    ensures !JsonRfc.IsUnsigned(u)
  {
  }

  /** The numbers of RFC 8259 are the literals without a plus in front, with a digit on both sides of
      the point, and without a zero in front of other digits. */
  lemma RfcNumberExact(s: Bytes)
    ensures JsonRfc.IsRfcNumber(s) <==>
      exists l :: IsLiteral(l) && Text(l) == s && IsRfcLiteral(l)
  {
    hide IsDecimalLiteral;
    if JsonRfc.IsRfcNumber(s) {
      JsonRfc.RfcNumberIsDecimal(s);
      var l := LiteralOf(s);
      RfcParts(l);
    }
    if l :| IsLiteral(l) && Text(l) == s && IsRfcLiteral(l) {
      RfcParts(l);
    }
  }

  lemma RfcParts(l: Literal)
    requires IsLiteral(l)
    ensures JsonRfc.IsRfcNumber(Text(l)) <==> IsRfcLiteral(l)
  {
    hide DigitSpan, FractionText, ExponentText, JsonRfc.IsUnsigned;
    var v := FractionText(l.fraction) + ExponentText(l.exponent);
    UnsignedParts(l);
    TailRead(l);
    ExponentStart(l.exponent);
    if l.sign == ['+'] {
      NotUnsigned(Text(l));
    } else if l.sign == ['-'] {
      assert Text(l)[1..] == l.whole + v;
    } else {
      assert Text(l) == l.whole + v;
    }
  }

  // ----- printing -----

  /** An integer is printed in base ten, with a minus exactly when it is negative, and without a zero in
      front of other digits. */
  lemma IntTextExact(i: int)
    ensures
      var s := T.IntText(i);
      var digits := if i < 0 then s[1..] else s;
      SpellsInt(s, i) && (i < 0 ==> s[0] == '-') && digits != [] && AllDigits(digits) && (|digits| > 1 ==> digits[0] != '0')
  {
    hide DigitsValue;
    var n := if i < 0 then -i else i;
    DecimalExactly(n);
    JsonRoundTrip.DecimalReads(n);
    if i < 0 {
      assert T.IntText(i)[1..] == T.Decimal(n);
      assert Integral(['-'], T.Decimal(n), i);
    } else {
      assert [] + T.Decimal(n) == T.IntText(i);
      assert Integral([], T.Decimal(n), i);
    }
  }

  lemma {:induction false} DecimalExactly(n: nat)
    ensures var s := T.Decimal(n);
      s != [] && (s[0] == '0' <==> n == 0) && (n < 10 ==> |s| == 1)
  {
    if n >= 10 {
      DecimalExactly(n / 10);
    }
  }
}
