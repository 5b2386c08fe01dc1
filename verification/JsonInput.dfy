/** picojson's `input`: the text with one byte of push-back. */
module JsonInput {
  import opened ByteStrings
  import G = JsonGrammar

  /** What a client of the stream can tell: where the next byte will come from, and whether the last
      one can be given back. */
  datatype Cursor = Cursor(pos: nat, canUnget: bool)

  datatype Op = GetC | UngetC | Cur | SkipWs | Expect(c: byte) | Match(pattern: Bytes)

  /** The same operations on a plain index into the text. */
  function Got(text: Bytes, c: Cursor): Cursor {
    if c.pos < |text| then Cursor(c.pos + 1, true) else Cursor(c.pos, false)
  }

  function Ungot(c: Cursor): Cursor {
    if c.canUnget && c.pos > 0 then Cursor(c.pos - 1, false) else Cursor(c.pos, false)
  }

  function Skipped(text: Bytes, c: Cursor): Cursor
    requires c.pos <= |text|
  {
    Cursor(|text| - |G.SkipWs(text[c.pos..])|, false)
  }

  function Expected(text: Bytes, c: Cursor, b: byte): Cursor
    requires c.pos <= |text|
  {
    var t := Skipped(text, c);
    if t.pos < |text| && text[t.pos] == b then Cursor(t.pos + 1, true) else t
  }

  /** A plain `char` as the `int` it is compared as; it is signed, as on x86. */
  function SignedChar(c: byte): int {
    if c as int < 0x80 then c as int else c as int - 0x100
  }

  /** What `getc` returns in front of `rest`. */
  function Next(rest: Bytes): int {
    if rest == [] then -1 else rest[0] as int
  }

  function Matched(text: Bytes, c: Cursor, pattern: Bytes): Cursor
    requires c.pos <= |text|
    decreases |pattern|
  {
    if pattern == [] then c
    else if Next(text[c.pos..]) == SignedChar(pattern[0]) then Matched(text, Got(text, c), pattern[1..])
    else Cursor(c.pos, false)
  }

  /** Whether the whole pattern is matched in front of `rest`. */
  predicate Matches(rest: Bytes, pattern: Bytes)
    decreases |pattern|
  {
    pattern == [] ||
    (Next(rest) == SignedChar(pattern[0]) && Matches(if rest == [] then [] else rest[1..], pattern[1..]))
  }

  function Apply(text: Bytes, c: Cursor, op: Op): (r: Cursor)
    requires c.pos <= |text|
    ensures r.pos <= |text|
  {
    match op
    case GetC => Got(text, c)
    case UngetC => Ungot(c)
    case Cur => Cursor(c.pos, false)
    case SkipWs => Skipped(text, c)
    case Expect(b) => Expected(text, c, b)
    case Match(pattern) => MatchedInside(text, c, pattern); Matched(text, c, pattern)
  }

  lemma {:induction false} MatchedInside(text: Bytes, c: Cursor, pattern: Bytes)
    requires c.pos <= |text|
    ensures Matched(text, c, pattern).pos <= |text|
    decreases |pattern|
  {
    if pattern != [] && Next(text[c.pos..]) == SignedChar(pattern[0]) {
      MatchedInside(text, Got(text, c), pattern[1..]);
    }
  }

  predicate Ascii(s: Bytes) {
    forall i | 0 <= i < |s| :: s[i] as int < 0x80
  }

  const HIGHEST: byte := 0xff as char

  /** The first `n` bytes of the pattern are ASCII and come next; any others are 0xff, which compares
      equal to the end of the text. */
  predicate MatchesUpTo(rest: Bytes, pattern: Bytes, n: nat) {
    n <= |pattern| && Ascii(pattern[..n]) && pattern[..n] <= rest &&
    (n < |pattern| ==> |rest| == n && forall i | n <= i < |pattern| :: pattern[i] == HIGHEST)
  }

  lemma {:induction false} MatchReaches(rest: Bytes, pattern: Bytes) returns (n: nat)
    requires Matches(rest, pattern)
    ensures MatchesUpTo(rest, pattern, n)
    decreases |pattern|
  {
    if pattern == [] {
      n := 0;
    } else if rest == [] {
      n := MatchReaches([], pattern[1..]);
      assert forall i | 1 <= i < |pattern| :: pattern[i] == pattern[1..][i - 1];
      n := 0;
    } else {
      n := MatchReaches(rest[1..], pattern[1..]);
      UpToLonger(rest, pattern, n);
      n := n + 1;
    }
  }

  lemma AsciiCons(c: byte, s: Bytes)
    ensures Ascii([c] + s) <==> c as int < 0x80 && Ascii(s)
  {
    assert ([c] + s)[0] == c;
    if Ascii([c] + s) {
      forall i | 0 <= i < |s| ensures s[i] as int < 0x80 {
        assert s[i] == ([c] + s)[i + 1];
      }
    }
  }

  lemma UpToLonger(rest: Bytes, pattern: Bytes, n: nat)
    requires pattern != [] && rest != [] && pattern[0] == rest[0] && pattern[0] as int < 0x80
    ensures MatchesUpTo(rest[1..], pattern[1..], n) <==> MatchesUpTo(rest, pattern, n + 1)
  {
    var tail, less := pattern[1..], rest[1..];
    if n <= |tail| {
      assert pattern[..n + 1] == [pattern[0]] + tail[..n] && rest == [rest[0]] + less;
      assert pattern[..n + 1][1..] == tail[..n];
      assert forall i | 0 <= i < |tail| :: tail[i] == pattern[i + 1];
      assert forall i | 1 <= i < |pattern| :: pattern[i] == tail[i - 1];
      AsciiCons(pattern[0], tail[..n]);
      assert pattern[..n + 1] <= rest <==> tail[..n] <= less;
    }
  }

  lemma {:induction false} UpToMatches(rest: Bytes, pattern: Bytes, n: nat)
    requires MatchesUpTo(rest, pattern, n)
    ensures Matches(rest, pattern)
    decreases |pattern|
  {
    if n > 0 {
      assert pattern[..n][0] == pattern[0] == rest[0];
      UpToLonger(rest, pattern, n - 1);
      UpToMatches(rest[1..], pattern[1..], n - 1);
    } else if pattern != [] {
      assert forall i | 0 <= i < |pattern[1..]| :: pattern[1..][i] == pattern[i + 1];
      UpToMatches([], pattern[1..], 0);
    }
  }

  /** Exactly when a pattern is matched. */
  lemma MatchMeans(rest: Bytes, pattern: Bytes)
    ensures Matches(rest, pattern) <==> exists n: nat :: MatchesUpTo(rest, pattern, n)
  {
    hide *;
    if Matches(rest, pattern) {
      var n := MatchReaches(rest, pattern);
    }
    if n: nat :| MatchesUpTo(rest, pattern, n) {
      UpToMatches(rest, pattern, n);
    }
  }

  lemma {:induction false} AsciiMatches(rest: Bytes, pattern: Bytes)
    requires Ascii(pattern)
    ensures Matches(rest, pattern) <==> pattern <= rest
    decreases |pattern|
  {
    if pattern != [] && rest != [] {
      AsciiMatches(rest[1..], pattern[1..]);
      assert pattern == [pattern[0]] + pattern[1..] && rest == [rest[0]] + rest[1..];
    }
  }

  lemma MatchesItself(pattern: Bytes)
    requires Matches(pattern, pattern)
    ensures Ascii(pattern)
  {
    var n := MatchReaches(pattern, pattern);
    assert pattern[..n] == pattern;
  }

  predicate MatchedAsPrefix(rest: Bytes, pattern: Bytes) {
    Matches(rest, pattern) <==> pattern <= rest
  }

  /** A pattern is matched exactly where it comes next if and only if it is ASCII. */
  lemma PrefixIffAscii(pattern: Bytes)
    ensures (forall rest :: MatchedAsPrefix(rest, pattern)) <==> Ascii(pattern)
  {
    hide Ascii;
    if Ascii(pattern) {
      forall rest ensures MatchedAsPrefix(rest, pattern) {
        AsciiMatches(rest, pattern);
      }
    } else {
      if Matches(pattern, pattern) {
        MatchesItself(pattern);
      }
      assert !MatchedAsPrefix(pattern, pattern);
    }
  }

  /** How far matching gets, and for an ASCII pattern when it gets to the end of it. */
  lemma {:induction false} MatchedMeans(text: Bytes, c: Cursor, pattern: Bytes)
    requires c.pos <= |text|
    ensures c.pos <= Matched(text, c, pattern).pos <= c.pos + |pattern|
    ensures Ascii(pattern) ==> (Matched(text, c, pattern).pos == c.pos + |pattern| <==> pattern <= text[c.pos..])
    decreases |pattern|
  {
    if pattern != [] && Next(text[c.pos..]) == SignedChar(pattern[0]) {
      MatchedMeans(text, Got(text, c), pattern[1..]);
      if c.pos < |text| {
        assert text[c.pos..] == [text[c.pos]] + text[c.pos + 1..];
      }
      assert pattern == [pattern[0]] + pattern[1..];
    }
  }

  function ApplyAll(text: Bytes, c: Cursor, ops: seq<Op>): Cursor
    requires c.pos <= |text|
    decreases |ops|
  {
    if ops == [] then c else ApplyAll(text, Apply(text, c, ops[0]), ops[1..])
  }

  /** The byte that was handed out last, and that `cur` has not passed yet, is a newline. */
  predicate NewlinePending(text: Bytes, c: Cursor)
    requires c.pos <= |text|
  {
    c.canUnget && c.pos > 0 && text[c.pos - 1] == '\n'
  }

  /** How often `cur` is called while a newline is pending. */
  function Missed(text: Bytes, c: Cursor, ops: seq<Op>): nat
    requires c.pos <= |text|
    decreases |ops|
  {
    if ops == [] then 0
    else
      (if ops[0].Cur? && NewlinePending(text, c) then 1 else 0) + Missed(text, Apply(text, c, ops[0]), ops[1..])
  }

  /** It does happen: read a newline, then ask for the position. */
  lemma CurMissesNewline()
    ensures Missed("\n", Cursor(0, false), [GetC, Cur]) == 1
  {
    var ops, c := [GetC, Cur], Cursor(1, true);
    assert ops[1..] == [Cur];
    assert Apply("\n", Cursor(0, false), GetC) == c && NewlinePending("\n", c);
    assert [Cur][1..] == [];
    assert Missed("\n", c, [Cur]) == 1 + Missed("\n", Apply("\n", c, Cur), []);
  }

  function Newlines(s: Bytes): nat {
    if s == [] then 0 else Newlines(s[..|s| - 1]) + (if s[|s| - 1] == '\n' then 1 else 0)
  }

  class Input {
    const text: Bytes
    var cur: nat        // `cur_`, as an offset
    var consumed: bool  // the byte at `cur` has been handed out; `cur` moves on at the next `getc`
    var line: nat

    ghost predicate Inside()
      reads this
    {
      cur <= |text| && (consumed ==> cur < |text|)
    }

    /** How many newlines before `cur` the line does not count. */
    ghost function Lag(): int
      requires Inside()
      reads this
    {
      1 + Newlines(text[..cur]) - line
    }

    /** The line is one more than the newlines that `cur` has passed. */
    ghost predicate Valid()
      reads this
    {
      Inside() && Lag() == 0
    }

    function Pos(): (p: nat)
      reads this
    {
      if consumed then cur + 1 else cur
    }

    ghost function View(): Cursor
      reads this
    {
      Cursor(Pos(), consumed)
    }

    /** The text still to be read. */
    ghost function Rest(): Bytes
      requires Inside()
      reads this
    {
      text[Pos()..]
    }

    constructor (text: Bytes)
      ensures Valid() && this.text == text && View() == Cursor(0, false)
    {
      this.text := text;
      cur, consumed, line := 0, false, 1;
    }

    /** The next byte, or -1 at the end of the text. */
    method GetC() returns (ch: int)
      requires Inside()
      modifies this
      ensures Inside() && Lag() == old(Lag()) && View() == Got(text, old(View()))
      ensures ch == Next(old(Rest()))
      ensures ch != -1 ==> old(Rest()) != [] && Rest() == old(Rest())[1..]
      ensures ch == -1 ==> old(Rest()) == [] && Rest() == []
      ensures text[cur..] == old(Rest())
    {
      if consumed {
        assert text[..cur + 1][..cur] == text[..cur];
        if text[cur] == '\n' {
          line := line + 1;
        }
        cur := cur + 1;
      }
      if cur == |text| {
        consumed := false;
        return -1;
      }
      consumed := true;
      return text[cur] as int;
    }

    /** Gives the last byte back; without effect when the last `GetC` found the end. */
    method UngetC()
      requires Inside()
      modifies this
      ensures Inside() && Lag() == old(Lag()) && View() == Ungot(old(View())) && cur == old(cur)
      ensures Rest() == text[cur..]
    {
      consumed := false;
    }

    /** `cur()`: the position behind what was read. It moves `cur_` without looking at the byte it
        passes, so the line falls behind exactly when that byte is a newline. */
    method Cur() returns (p: nat)
      requires Inside()
      modifies this
      ensures Inside() && View() == Cursor(old(Pos()), false) && p == cur == old(Pos())
      ensures Lag() == old(Lag()) + (if NewlinePending(text, old(View())) then 1 else 0)
    {
      if consumed {
        consumed := false;
        assert text[..cur + 1][..cur] == text[..cur];
        cur := cur + 1;
      }
      p := cur;
    }

    method SkipWs()
      requires Inside()
      modifies this
      ensures Inside() && Lag() == old(Lag()) && View() == Skipped(text, old(View()))
      ensures Rest() == G.SkipWs(old(Rest()))
    {
      hide Newlines;
      while true
        invariant Inside() && Lag() == old(Lag())
        invariant G.SkipWs(Rest()) == G.SkipWs(old(Rest()))
        decreases |text| - Pos()
      {
        ghost var before := Rest();
        var ch := GetC();
        if !(ch == ' ' as int || ch == '\t' as int || ch == '\n' as int || ch == '\r' as int) {
          UngetC();
          assert Rest() == before;
          break;
        }
      }
    }

    method Expect(c: byte) returns (ok: bool)
      requires Inside()
      modifies this
      ensures Inside() && Lag() == old(Lag()) && View() == Expected(text, old(View()), c)
      ensures ok == G.StartsWith(G.SkipWs(old(Rest())), c)
      ensures Rest() == if ok then G.SkipWs(old(Rest()))[1..] else G.SkipWs(old(Rest()))
    {
      hide Newlines;
      SkipWs();
      ghost var before := Rest();
      var ch := GetC();
      if ch != c as int {
        UngetC();
        assert Rest() == before;
        return false;
      }
      return true;
    }

    /** Reads `pattern`, or stops at the first byte that compares unequal. */
    method Match(pattern: Bytes) returns (ok: bool)
      requires Inside()
      modifies this
      ensures Inside() && Lag() == old(Lag()) && View() == Matched(text, old(View()), pattern)
      ensures ok == Matches(old(Rest()), pattern)
      ensures Ascii(pattern) ==> ok == (pattern <= old(Rest()))
      ensures Ascii(pattern) && ok ==> Rest() == old(Rest())[|pattern|..]
    {
      hide Newlines, Ascii;
      if Ascii(pattern) {
        AsciiMatches(Rest(), pattern);
        MatchedMeans(text, View(), pattern);
      }
      assert pattern[0..] == pattern;
      for i := 0 to |pattern|
        invariant Inside() && Lag() == old(Lag())
        invariant Matched(text, View(), pattern[i..]) == Matched(text, old(View()), pattern)
        invariant Matches(Rest(), pattern[i..]) == Matches(old(Rest()), pattern)
      {
        assert pattern[i..][1..] == pattern[i + 1..];
        ghost var before := Rest();
        var ch := GetC();
        assert Rest() == if before == [] then [] else before[1..];
        if ch != SignedChar(pattern[i]) {
          UngetC();
          return false;
        }
      }
      return true;
    }

    /** Any sequence of operations does to the stream what it does to the plain index, and the line is
        one more than the newlines before `cur` less those that `Cur` has missed. */
    method Run(ops: seq<Op>)
      requires Inside()
      modifies this
      ensures Inside() && View() == ApplyAll(text, old(View()), ops)
      ensures Lag() == old(Lag()) + Missed(text, old(View()), ops)
      ensures old(Valid()) ==> (Valid() <==> Missed(text, old(View()), ops) == 0)
    {
      hide Newlines, Got, Ungot, Skipped, Expected, Matched, NewlinePending;
      assert ops[0..] == ops;
      for i := 0 to |ops|
        invariant Inside() && ApplyAll(text, View(), ops[i..]) == ApplyAll(text, old(View()), ops)
        invariant Lag() + Missed(text, View(), ops[i..]) == old(Lag()) + Missed(text, old(View()), ops)
      {
        assert ops[i..][1..] == ops[i + 1..];
        match ops[i]
        case GetC => var _ := GetC();
        case UngetC => UngetC();
        case Cur => var _ := Cur();
        case SkipWs => SkipWs();
        case Expect(c) => var _ := Expect(c);
        case Match(pattern) => var _ := Match(pattern);
      }
    }
  }
}
