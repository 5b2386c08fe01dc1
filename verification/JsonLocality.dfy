/** A successful parse depends on the bytes it reads and on whether one more number character
    follows them, and on nothing else: any other text may be put behind. */
module JsonLocality {
  import opened ByteStrings
  import opened JsonValue
  import opened JsonGrammar
  import opened JsonReading

  /** Replacing the text behind a value by `q` does not let a number run on into it. */
  predicate MayFollow(r: Bytes, q: Bytes) {
    StartsLikeNumber(q) ==> StartsLikeNumber(r)
  }

  lemma DropConcat(c: Bytes, r: Bytes, n: nat)
    requires n <= |c|
    ensures (c + r)[n..] == c[n..] + r
  {
  }

  lemma {:induction false} SkipWsOver(c: Bytes, r: Bytes)
    ensures SkipWs(c + r) == if SkipWs(c) == [] then SkipWs(r) else SkipWs(c) + r
  {
    if c == [] {
      assert c + r == r;
    } else if IsWs(c[0]) {
      assert (c + r)[1..] == c[1..] + r;
      SkipWsOver(c[1..], r);
    }
  }

  /** One digit, whatever follows it. */
  lemma HexDigitLocal(c: Bytes, r: Bytes, read: nat, n: nat)
    requires read < 4 && n < HexCount(read) && c != []
    ensures HexValue(c[0]).None? ==> QuadHexFrom(c + r, read, n) == Fail
    ensures HexValue(c[0]).Some? ==>
      var m := n * 16 + HexValue(c[0]).value;
      m < HexCount(read + 1) && QuadHexFrom(c + r, read, n) == QuadHexFrom(c[1..] + r, read + 1, m)
  {
    hide QuadHexFrom, HexCount, HexValue;
    QuadHexStep(c + r, read, n);
    DropConcat(c, r, 1);
    assert (c + r)[0] == c[0];
  }

  lemma HexLength(s: Bytes, read: nat, n: nat)
    requires read <= 4 && n < HexCount(read) && QuadHexFrom(s, read, n).Ok?
    ensures |s| == |QuadHexFrom(s, read, n).rest| + 4 - read
  {
    hide QuadHexFrom, HexCount;
  }

  lemma {:induction false} HexLocal(c: Bytes, r: Bytes, q: Bytes, read: nat, n: nat)
    requires read <= 4 && n < HexCount(read)
    requires QuadHexFrom(c + r, read, n).Ok? && QuadHexFrom(c + r, read, n).rest == r
    ensures QuadHexFrom(c + q, read, n) == Ok(QuadHexFrom(c + r, read, n).value, q)
    ensures |c| == 4 - read
    decreases 4 - read
  {
    hide QuadHexFrom, HexCount, HexValue;
    HexLength(c + r, read, n);
    if read < 4 {
      HexDigitLocal(c, r, read, n);
      HexDigitLocal(c, q, read, n);
      HexLocal(c[1..], r, q, read + 1, n * 16 + HexValue(c[0]).value);
    } else {
      assert c + q == q && c + r == r;
      QuadHexStep(q, 4, n);
      QuadHexStep(r, 4, n);
    }
  }

  lemma CodepointLocal(c: Bytes, r: Bytes, q: Bytes)
    requires Codepoint(c + r).Ok? && Codepoint(c + r).rest == r
    ensures Codepoint(c + q) == Ok(Codepoint(c + r).value, q)
  {
    hide QuadHexFrom;
    var Ok(u, t) := QuadHex(c + r);
    assert t == (c + r)[4..];
    if Utf8.IsHighSurrogate(u) {
      assert |c| == 10;
      var c1, c2, c3 := c[..4], c[4..6], c[6..];
      assert c + r == c1 + (c2 + (c3 + r)) && c + q == c1 + (c2 + (c3 + q));
      assert t == c2 + (c3 + r);
      HexLocal(c1, t, c2 + (c3 + q), 0, 0);
      assert t[2..] == c3 + r && (c2 + (c3 + q))[2..] == c3 + q;
      HexLocal(c3, r, q, 0, 0);
    } else {
      HexLocal(c, r, q, 0, 0);
    }
  }

  /** The bytes of `c` that `Consumes` says were read before `after`, and those that were not. */
  lemma SplitRead(c: Bytes, r: Bytes, after: Bytes) returns (c1: Bytes, c2: Bytes)
    requires Consumes(c + r, after) && |after| >= |r|
    ensures c == c1 + c2 && after == c2 + r && c + r == c1 + after
    ensures forall q :: c + q == c1 + (c2 + q)
  {
    var n := |c| + |r| - |after|;
    c1, c2 := c[..n], c[n..];
    assert (c + r)[n..] == c2 + r;
    forall q: Bytes ensures c + q == c1 + (c2 + q) {
      assert c1 + (c2 + q) == (c1 + c2) + q;
    }
  }

  lemma EscapeLocal(c: Bytes, r: Bytes, q: Bytes)
    requires EscapeFrom(c + r).Ok? && EscapeFrom(c + r).rest == r
    ensures EscapeFrom(c + q) == Ok(EscapeFrom(c + r).value, q)
  {
    hide Codepoint;
    assert c != [] && (c + q)[0] == c[0] == (c + r)[0];
    DropConcat(c, r, 1);
    DropConcat(c, q, 1);
    if c[0] == 'u' {
      CodepointLocal(c[1..], r, q);
    } else {
      assert c[1..] == [] && c[1..] + q == q;
    }
  }

  lemma {:induction false} StringLocal(c: Bytes, r: Bytes, q: Bytes, acc: Bytes)
    requires StringFrom(c + r, acc).Ok? && StringFrom(c + r, acc).rest == r
    ensures StringFrom(c + q, acc) == Ok(StringFrom(c + r, acc).value, q)
    decreases |c|
  {
    hide EscapeFrom, Consumes;
    var s := c + r;
    assert c != [] && (c + q)[0] == c[0] == s[0];
    DropConcat(c, r, 1);
    DropConcat(c, q, 1);
    if s[0] == '"' {
      assert c[1..] == [];
      assert c[1..] + q == q;
    } else if s[0] != '\\' {
      StringLocal(c[1..], r, q, acc + [s[0]]);
    } else {
      var Ok(b, after) := EscapeFrom(s[1..]);
      EscapeConsumes(s[1..]);
      var c1, c2 := SplitRead(c[1..], r, after);
      EscapeLocal(c1, after, c2 + q);
      StringLocal(c2, r, q, acc + b);
    }
  }

  lemma {:induction false} NumberSpanLocal(c: Bytes, r: Bytes, q: Bytes)
    requires NumberSpan(c + r) == |c| && MayFollow(r, q)
    ensures NumberSpan(c + q) == |c|
    ensures !StartsLikeNumber(r)
  {
    NumberSpanMeans(c + r);
    assert (c + r)[|c|..] == r;
    if c == [] {
      assert c + q == q && c + r == r;
    } else {
      DropConcat(c, r, 1);
      DropConcat(c, q, 1);
      NumberSpanLocal(c[1..], r, q);
    }
  }

  lemma KeywordLocal(c: Bytes, r: Bytes, q: Bytes, tail: Bytes, v: Value)
    requires Keyword(c + r, tail, v).Ok? && Keyword(c + r, tail, v).rest == r
    ensures Keyword(c + q, tail, v) == Ok(Keyword(c + r, tail, v).value, q)
  {
    assert |c| == |tail| && (c + r)[..|tail|] == c;
    assert (c + q)[|tail|..] == q;
  }

  lemma ScalarLocal(c: Bytes, r: Bytes, q: Bytes)
    requires c != [] && MayFollow(r, q)
    requires ScalarFrom(c + r).Ok? && ScalarFrom(c + r).rest == r
    ensures ScalarFrom(c + q) == Ok(ScalarFrom(c + r).value, q)
  {
    hide StringFrom, NumberOf, Keyword, NumberSpan;
    DropConcat(c, r, 1);
    DropConcat(c, q, 1);
    assert (c + r)[0] == (c + q)[0] == c[0];
    if c[0] == 'n' {
      KeywordLocal(c[1..], r, q, "ull", Null);
    } else if c[0] == 'f' {
      KeywordLocal(c[1..], r, q, "alse", Bool(false));
    } else if c[0] == 't' {
      KeywordLocal(c[1..], r, q, "rue", Bool(true));
    } else if c[0] == '"' {
      StringLocal(c[1..], r, q, []);
    } else {
      assert NumberSpan(c + r) == |c|;
      NumberSpanLocal(c, r, q);
      assert (c + r)[..|c|] == (c + q)[..|c|] == c && (c + q)[|c|..] == q;
    }
  }

  /** White space, then a token that starts inside `c`. */
  lemma SkipWithin(c: Bytes, r: Bytes, q: Bytes) returns (t: Bytes)
    requires |SkipWs(c + r)| > |r|
    ensures t == SkipWs(c) && t != [] && |t| <= |c|
    ensures SkipWs(c + r) == t + r && SkipWs(c + q) == t + q
    ensures (t + r)[0] == (t + q)[0] == t[0]
    ensures (t + r)[1..] == t[1..] + r && (t + q)[1..] == t[1..] + q
  {
    t := SkipWs(c);
    SkipWsOver(c, r);
    SkipWsOver(c, q);
  }

  /** Put `q` behind the bytes a successful parse has read, in place of what was there: the parse
      still succeeds, with the same value, and `q` is left. */
  lemma {:induction false} ValueLocal(c: Bytes, r: Bytes, q: Bytes, d: nat)
    requires MayFollow(r, q)
    requires ValueFrom(c + r, d).Ok? && ValueFrom(c + r, d).rest == r
    ensures ValueFrom(c + q, d) == Ok(ValueFrom(c + r, d).value, q)
    decreases |c|, 0
  {
    hide SkipWs, ScalarFrom, ItemsFrom, MembersFrom;
    var t := SkipWithin(c, r, q);
    if t[0] == '[' || t[0] == '{' {
      var u := SkipWithin(t[1..], r, q);
      if u[0] == (if t[0] == '[' then ']' else '}') {
        assert u[1..] == [] && u[1..] + q == q;
      } else if t[0] == '[' {
        ItemsLocal(u, r, q, d - 1, []);
      } else {
        MembersLocal(u, r, q, d, map[]);
      }
    } else {
      ScalarLocal(t, r, q);
    }
  }

  lemma {:induction false} ItemsLocal(c: Bytes, r: Bytes, q: Bytes, d: nat, acc: seq<Value>)
    requires MayFollow(r, q)
    requires ItemsFrom(c + r, d, acc).Ok? && ItemsFrom(c + r, d, acc).rest == r
    ensures ItemsFrom(c + q, d, acc) == Ok(ItemsFrom(c + r, d, acc).value, q)
    decreases |c|, 1
  {
    hide SkipWs, ValueFrom, Consumes;
    var Ok(x, after) := ValueFrom(c + r, d);
    ValueConsumes(c + r, d);
    var c1, c2 := SplitRead(c, r, after);
    assert c2 != [];
    assert (c2 + r)[0] == (c2 + q)[0];
    ValueLocal(c1, after, c2 + q, d);
    var t := SkipWithin(c2, r, q);
    if t[0] == ',' {
      ItemsLocal(t[1..], r, q, d, acc + [x]);
    } else {
      assert t[1..] == [] && t[1..] + q == q;
    }
  }

  lemma KeyLocal(c: Bytes, r: Bytes, q: Bytes)
    requires KeyFrom(c + r).Ok? && KeyFrom(c + r).rest == r
    ensures KeyFrom(c + q) == Ok(KeyFrom(c + r).value, q)
  {
    hide SkipWs, StringFrom, Consumes;
    var t := SkipWithin(c, r, q);
    var Ok(k, after) := StringFrom(t[1..] + r, []);
    StringConsumes(t[1..] + r, []);
    var c1, c2 := SplitRead(t[1..], r, after);
    StringLocal(c1, after, c2 + q, []);
    var u := SkipWithin(c2, r, q);
    assert u[1..] == [] && u[1..] + q == q;
  }

  lemma {:induction false} MembersLocal(c: Bytes, r: Bytes, q: Bytes, d: nat, acc: map<Bytes, Value>)
    requires MayFollow(r, q)
    requires MembersFrom(c + r, d, acc).Ok? && MembersFrom(c + r, d, acc).rest == r
    ensures MembersFrom(c + q, d, acc) == Ok(MembersFrom(c + r, d, acc).value, q)
    decreases |c|, 1
  {
    hide SkipWs, ValueFrom, KeyFrom, Consumes;
    var Ok(k, afterKey) := KeyFrom(c + r);
    KeyConsumes(c + r);
    var Ok(x, after) := ValueFrom(afterKey, d);
    ValueConsumes(afterKey, d);
    var c0, c12 := SplitRead(c, r, afterKey);
    KeyLocal(c0, afterKey, c12 + q);
    var c1, c2 := SplitRead(c12, r, after);
    assert c2 != [];
    assert (c2 + r)[0] == (c2 + q)[0];
    ValueLocal(c1, after, c2 + q, d);
    var t := SkipWithin(c2, r, q);
    if t[0] == ',' {
      MembersLocal(t[1..], r, q, d, acc[k := x]);
    } else {
      assert t[1..] == [] && t[1..] + q == q;
    }
  }

  /** Cutting a text at its first NUL does not change what it parses to. */
  lemma CutAtNul(s: Bytes)
    requires Parse(s).Some?
    ensures Parse(CStr(s)) == Parse(s)
  {
    hide ValueFrom;
    var r := ValueFrom(s, DEFAULT_MAX_DEPTHS).rest;
    ValueConsumes(s, DEFAULT_MAX_DEPTHS);
    var n := |s| - |r|;
    var c, cut := s[..n], CStr(s);
    assert s == c + r;
    assert n <= |cut|;
    var q := cut[n..];
    assert cut == c + q by {
      assert cut[..n] == s[..n];
    }
    assert q != [] ==> r != [] && q[0] == r[0];
    ValueLocal(c, r, q, DEFAULT_MAX_DEPTHS);
  }
}
