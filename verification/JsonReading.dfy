/** What every successful parse has in common: it reads a NUL-free prefix, it looks no further than
    one byte behind that prefix, and it never builds more nesting than it was given. */
module JsonReading {
  import opened ByteStrings
  import opened JsonValue
  import opened JsonGrammar

  // ----- what is read -----

  /** `rest` is what is left of `s` once a prefix without NUL has been read. */
  predicate Consumes(s: Bytes, rest: Bytes) {
    |rest| <= |s| && rest == s[|s| - |rest|..] && NUL !in s[..|s| - |rest|]
  }

  lemma ConsumesTransitive(s: Bytes, t: Bytes, u: Bytes)
    requires Consumes(s, t) && Consumes(t, u)
    ensures Consumes(s, u)
  {
    var a, b := |s| - |t|, |t| - |u|;
    assert s[..a + b] == s[..a] + t[..b];
    assert t[b..] == s[a + b..];
  }

  lemma ConsumesPrefix(s: Bytes, n: nat)
    requires n <= |s| && NUL !in s[..n]
    ensures Consumes(s, s[n..])
  {
  }

  lemma {:induction false} WsConsumes(s: Bytes)
    ensures Consumes(s, SkipWs(s))
  {
    if s != [] && IsWs(s[0]) {
      ConsumesPrefix(s, 1);
      WsConsumes(s[1..]);
      ConsumesTransitive(s, s[1..], SkipWs(s));
    }
  }

  /** White space and one more byte. */
  lemma TokenConsumes(s: Bytes, c: byte)
    requires StartsWith(SkipWs(s), c) && c != NUL
    ensures Consumes(s, SkipWs(s)[1..])
  {
    WsConsumes(s);
    ConsumesPrefix(SkipWs(s), 1);
    ConsumesTransitive(s, SkipWs(s), SkipWs(s)[1..]);
  }

  lemma {:induction false} HexConsumes(s: Bytes, read: nat, n: nat)
    requires read <= 4 && n < HexCount(read) && QuadHexFrom(s, read, n).Ok?
    ensures Consumes(s, QuadHexFrom(s, read, n).rest)
    decreases 4 - read
  {
    hide QuadHexFrom, HexCount, Consumes;
    QuadHexStep(s, read, n);
    if read < 4 {
      ConsumesPrefix(s, 1);
      HexConsumes(s[1..], read + 1, n * 16 + HexValue(s[0]).value);
      ConsumesTransitive(s, s[1..], QuadHexFrom(s, read, n).rest);
    } else {
      ConsumesPrefix(s, 0);
    }
  }

  lemma CodepointConsumes(s: Bytes)
    requires Codepoint(s).Ok?
    ensures Consumes(s, Codepoint(s).rest)
  {
    hide QuadHexFrom;
    HexConsumes(s, 0, 0);
    var Ok(u, t) := QuadHex(s);
    if Utf8.IsHighSurrogate(u) {
      ConsumesPrefix(t, 2);
      HexConsumes(t[2..], 0, 0);
      ConsumesTransitive(t, t[2..], Codepoint(s).rest);
      ConsumesTransitive(s, t, Codepoint(s).rest);
    }
  }

  lemma EscapeConsumes(s: Bytes)
    requires EscapeFrom(s).Ok?
    ensures Consumes(s, EscapeFrom(s).rest)
  {
    hide Consumes, Codepoint;
    ConsumesPrefix(s, 1);
    if s[0] == 'u' {
      CodepointConsumes(s[1..]);
      ConsumesTransitive(s, s[1..], EscapeFrom(s).rest);
    }
  }

  lemma {:induction false} StringConsumes(s: Bytes, acc: Bytes)
    requires StringFrom(s, acc).Ok?
    ensures Consumes(s, StringFrom(s, acc).rest)
    decreases |s|
  {
    hide Consumes, EscapeFrom;
    var rest := StringFrom(s, acc).rest;
    ConsumesPrefix(s, 1);
    if s[0] == '"' {
    } else if s[0] != '\\' {
      StringConsumes(s[1..], acc + [s[0]]);
      ConsumesTransitive(s, s[1..], rest);
    } else {
      var Ok(b, t) := EscapeFrom(s[1..]);
      EscapeConsumes(s[1..]);
      ConsumesTransitive(s, s[1..], t);
      StringConsumes(t, acc + b);
      ConsumesTransitive(s, t, rest);
    }
  }

  lemma ScalarConsumes(t: Bytes)
    requires t != [] && ScalarFrom(t).Ok?
    ensures Consumes(t, ScalarFrom(t).rest)
  {
    hide StringFrom, NumberOf;
    ConsumesPrefix(t, 1);
    if t[0] == '"' {
      StringConsumes(t[1..], []);
      ConsumesTransitive(t, t[1..], ScalarFrom(t).rest);
    } else if IsDigit(t[0]) || t[0] == '-' {
      NumberSpanMeans(t);
      ConsumesPrefix(t, NumberSpan(t));
    } else {
      var tail: Bytes := if t[0] == 'n' then "ull" else if t[0] == 'f' then "alse" else "rue";
      assert tail <= t[1..] && NUL !in tail;
      assert t[1..][..|tail|] == tail;
      ConsumesPrefix(t[1..], |tail|);
      ConsumesTransitive(t, t[1..], ScalarFrom(t).rest);
    }
  }

  /** A successful parse has read a prefix of its input that holds no NUL. */
  lemma {:induction false} ValueConsumes(s: Bytes, d: nat)
    requires ValueFrom(s, d).Ok?
    ensures Consumes(s, ValueFrom(s, d).rest)
    decreases |s|, 0
  {
    hide Consumes, SkipWs, ScalarFrom, ItemsFrom, MembersFrom;
    var rest, t := ValueFrom(s, d).rest, SkipWs(s);
    WsConsumes(s);
    if t[0] == '[' || t[0] == '{' {
      TokenConsumes(s, t[0]);
      var u := SkipWs(t[1..]);
      WsConsumes(t[1..]);
      ConsumesTransitive(s, t[1..], u);
      if StartsWith(u, if t[0] == '[' then ']' else '}') {
        TokenConsumes(t[1..], u[0]);
        ConsumesTransitive(s, t[1..], rest);
      } else {
        if t[0] == '[' {
          ItemsConsume(u, d - 1, []);
        } else {
          MembersConsume(u, d, map[]);
        }
        ConsumesTransitive(s, u, rest);
      }
    } else {
      ScalarConsumes(t);
      ConsumesTransitive(s, t, rest);
    }
  }

  lemma {:induction false} ItemsConsume(s: Bytes, d: nat, acc: seq<Value>)
    requires ItemsFrom(s, d, acc).Ok?
    ensures Consumes(s, ItemsFrom(s, d, acc).rest)
    decreases |s|, 1
  {
    hide Consumes, ValueFrom;
    var Ok(x, after) := ValueFrom(s, d);
    ValueConsumes(s, d);
    var t := SkipWs(after);
    TokenConsumes(after, t[0]);
    ConsumesTransitive(s, after, t[1..]);
    if StartsWith(t, ',') {
      ItemsConsume(t[1..], d, acc + [x]);
      ConsumesTransitive(s, t[1..], ItemsFrom(s, d, acc).rest);
    }
  }

  lemma KeyConsumes(s: Bytes)
    requires KeyFrom(s).Ok?
    ensures Consumes(s, KeyFrom(s).rest)
  {
    hide Consumes, StringFrom;
    var t := SkipWs(s);
    TokenConsumes(s, '"');
    StringConsumes(t[1..], []);
    var after := StringFrom(t[1..], []).rest;
    TokenConsumes(after, ':');
    ConsumesTransitive(s, t[1..], after);
    ConsumesTransitive(s, after, KeyFrom(s).rest);
  }

  lemma {:induction false} MembersConsume(s: Bytes, d: nat, acc: map<Bytes, Value>)
    requires MembersFrom(s, d, acc).Ok?
    ensures Consumes(s, MembersFrom(s, d, acc).rest)
    decreases |s|, 1
  {
    hide Consumes, ValueFrom, KeyFrom;
    var Ok(k, afterKey) := KeyFrom(s);
    KeyConsumes(s);
    var Ok(x, after) := ValueFrom(afterKey, d);
    ValueConsumes(afterKey, d);
    ConsumesTransitive(s, afterKey, after);
    var t := SkipWs(after);
    TokenConsumes(after, t[0]);
    ConsumesTransitive(s, after, t[1..]);
    if StartsWith(t, ',') {
      MembersConsume(t[1..], d, acc[k := x]);
      ConsumesTransitive(s, t[1..], MembersFrom(s, d, acc).rest);
    }
  }

  // ----- the depth budget -----

  /** Nothing that was accepted goes beyond the budget. */
  lemma {:induction false} ValueFits(s: Bytes, d: nat)
    requires ValueFrom(s, d).Ok?
    ensures FitsDepth(ValueFrom(s, d).value, d)
    decreases |s|, 0
  {
    hide SkipWs, ScalarFrom, ItemsFrom, MembersFrom;
    var t := SkipWs(s);
    if t[0] == '[' {
      var u := SkipWs(t[1..]);
      if !StartsWith(u, ']') {
        ItemsFit(u, d - 1, []);
      }
    } else if t[0] == '{' {
      var u := SkipWs(t[1..]);
      if !StartsWith(u, '}') {
        MembersFit(u, d, map[]);
      }
    } else {
      ScalarIsLeaf(t);
    }
  }

  lemma ScalarIsLeaf(t: Bytes)
    requires t != [] && ScalarFrom(t).Ok?
    ensures !IsContainer(ScalarFrom(t).value)
  {
    hide StringFrom, NumberSpan, Int64Of, IsDecimalLiteral;
  }

  lemma MemberFits(acc: map<Bytes, Value>, k: Bytes, x: Value, more: map<Bytes, Value>, d: nat)
    requires d > 0 && FitsDepth(x, d) && forall j | j in acc :: FitsDepth(acc[j], d)
    requires more == acc[k := x]
    ensures forall j | j in more :: FitsDepth(more[j], d)
    ensures FitsDepth(Obj(more), d)
  {
  }

  lemma {:induction false} ItemsFit(s: Bytes, d: nat, acc: seq<Value>)
    requires ItemsFrom(s, d, acc).Ok?
    requires forall i | 0 <= i < |acc| :: FitsDepth(acc[i], d)
    ensures FitsDepth(ItemsFrom(s, d, acc).value, d + 1)
    decreases |s|, 1
  {
    hide ValueFrom;
    var Ok(x, after) := ValueFrom(s, d);
    ValueFits(s, d);
    var t := SkipWs(after);
    if StartsWith(t, ',') {
      ItemsFit(t[1..], d, acc + [x]);
    }
  }

  lemma {:induction false} MembersFit(s: Bytes, d: nat, acc: map<Bytes, Value>)
    requires MembersFrom(s, d, acc).Ok? && d > 0
    requires forall k | k in acc :: FitsDepth(acc[k], d)
    ensures FitsDepth(MembersFrom(s, d, acc).value, d)
    decreases |s|, 1
  {
    hide ValueFrom, KeyFrom, SkipWs, FitsDepth;
    var Ok(k, afterKey) := KeyFrom(s);
    var Ok(x, after) := ValueFrom(afterKey, d);
    ValueFits(afterKey, d);
    MemberFits(acc, k, x, acc[k := x], d);
    var t := SkipWs(after);
    if StartsWith(t, ',') {
      MembersFit(t[1..], d, acc[k := x]);
    }
  }

  /** A larger budget accepts what a smaller one does, with the same result. */
  lemma {:induction false} BudgetMonotone(s: Bytes, d: nat, e: nat)
    requires d <= e && ValueFrom(s, d).Ok?
    ensures ValueFrom(s, e) == ValueFrom(s, d)
    decreases |s|, 0
  {
    hide ScalarFrom, ItemsFrom, MembersFrom;
    var t := SkipWs(s);
    if t[0] == '[' {
      var u := SkipWs(t[1..]);
      if !StartsWith(u, ']') {
        ItemsMonotone(u, d - 1, e - 1, []);
      }
    } else if t[0] == '{' {
      var u := SkipWs(t[1..]);
      if !StartsWith(u, '}') {
        MembersMonotone(u, d, e, map[]);
      }
    }
  }

  lemma {:induction false} ItemsMonotone(s: Bytes, d: nat, e: nat, acc: seq<Value>)
    requires d <= e && ItemsFrom(s, d, acc).Ok?
    ensures ItemsFrom(s, e, acc) == ItemsFrom(s, d, acc)
    decreases |s|, 1
  {
    hide ValueFrom;
    var Ok(x, after) := ValueFrom(s, d);
    BudgetMonotone(s, d, e);
    var t := SkipWs(after);
    if StartsWith(t, ',') {
      ItemsMonotone(t[1..], d, e, acc + [x]);
    }
  }

  lemma {:induction false} MembersMonotone(s: Bytes, d: nat, e: nat, acc: map<Bytes, Value>)
    requires d <= e && MembersFrom(s, d, acc).Ok?
    ensures MembersFrom(s, e, acc) == MembersFrom(s, d, acc)
    decreases |s|, 1
  {
    hide ValueFrom, KeyFrom;
    var Ok(k, afterKey) := KeyFrom(s);
    var Ok(x, after) := ValueFrom(afterKey, d);
    BudgetMonotone(afterKey, d, e);
    var t := SkipWs(after);
    if StartsWith(t, ',') {
      MembersMonotone(t[1..], d, e, acc[k := x]);
    }
  }
}
