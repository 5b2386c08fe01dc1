/** What the two base64 alphabets promise. */
module Base64Laws {
  import opened ByteStrings
  import opened Base64Code

  // ----- counting the fill -----

  function Join(fs: seq<Bytes>): Bytes {
    if fs == [] then [] else Join(fs[..|fs| - 1]) + fs[|fs| - 1]
  }

  /** Fills of one length that start with a byte outside the alphabet. Their other bytes may well be
      symbols, as in `%3d`. */
  predicate GoodFills(fills: seq<Bytes>, length: nat, a: Alphabet) {
    length > 0 && forall i | 0 <= i < |fills| :: |fills[i]| == length && Index(a, fills[i][0]) == NO_INDEX
  }

  lemma {:induction false} LastFillFinds(s: Bytes, f: Bytes, fills: seq<Bytes>, length: nat, a: Alphabet)
    requires GoodFills(fills, length, a) && f in fills
    ensures LastFill(s + f, fills) == Some(f)
  {
    assert (s + f)[|s|..] == f;
    if fills[0] != f {
      assert |fills[0]| == length == |f|;
      assert f in fills[1..];
      LastFillFinds(s, f, fills[1..], length, a);
    }
  }

  lemma {:induction false} NoLastFill(s: Bytes, fills: seq<Bytes>, length: nat, a: Alphabet)
    requires GoodFills(fills, length, a) && AllSymbols(s, a)
    ensures LastFill(s, fills) == None
  {
    if fills != [] {
      assert Index(a, fills[0][0]) == NO_INDEX;
      assert !EndsWith(s, fills[0]);
      NoLastFill(s, fills[1..], length, a);
    }
  }

  lemma GoodFillsNotEmpty(fills: seq<Bytes>, length: nat, a: Alphabet)
    requires GoodFills(fills, length, a)
    ensures [] !in fills
  {
  }

  lemma NoFills(s: Bytes, fills: seq<Bytes>, length: nat, a: Alphabet)
    requires GoodFills(fills, length, a) && AllSymbols(s, a) && [] !in fills
    ensures CountPadding(s, fills) == Padding(0, 0)
  {
    NoLastFill(s, fills, length, a);
  }

  /** `count_padding` counts exactly the fills behind the symbols. */
  lemma {:induction false} CountsFills(s: Bytes, fs: seq<Bytes>, fills: seq<Bytes>, length: nat, a: Alphabet)
    requires GoodFills(fills, length, a) && AllSymbols(s, a)
    requires forall i | 0 <= i < |fs| :: fs[i] in fills
    ensures [] !in fills && CountPadding(s + Join(fs), fills) == Padding(|fs|, |fs| * length)
    ensures |Join(fs)| == |fs| * length
    decreases |fs|
  {
    hide AllSymbols, LastFill, Index, CountPadding;
    GoodFillsNotEmpty(fills, length, a);
    if fs == [] {
      NoFills(s, fills, length, a);
      assert s + Join(fs) == s;
    } else {
      var n := |fs| - 1;
      var f := fs[n];
      var shorter := s + Join(fs[..n]);
      CountsFills(s, fs[..n], fills, length, a);
      assert s + Join(fs) == shorter + f;
      OneMoreFill(shorter, f, fills, length, a);
      LengthStep(n, length);
    }
  }

  lemma LengthStep(n: nat, length: nat)
    ensures (n + 1) * length == n * length + length
  {
  }

  lemma OneMoreFill(s: Bytes, f: Bytes, fills: seq<Bytes>, length: nat, a: Alphabet)
    requires GoodFills(fills, length, a) && f in fills && [] !in fills
    ensures |f| == length
    ensures var p := CountPadding(s, fills);
      CountPadding(s + f, fills) == Padding(1 + p.count, length + p.length)
  {
    hide LastFill, Index;
    LastFillFinds(s, f, fills, length, a);
    assert (s + f)[..|s + f| - |f|] == s;
  }

  /** Symbols completed by any mixture of accepted fills: the result depends on the symbols alone. */
  lemma DecodeCompleted(s: Bytes, fs: seq<Bytes>, fills: seq<Bytes>, length: nat, a: Alphabet)
    requires GoodFills(fills, length, a) && AllSymbols(s, a)
    requires |fs| == FillsNeeded(|s|) && forall i | 0 <= i < |fs| :: fs[i] in fills
    ensures [] !in fills
    ensures Decode(s + Join(fs), a, fills) == if |s| % 4 == 1 then Error(TooMuchFill) else Bin(Octets(s, a))
  {
    hide Index, CountPadding, Octets;
    CountsFills(s, fs, fills, length, a);
    assert (s + Join(fs))[..|s + Join(fs)| - |fs| * length] == s;
  }

  lemma {:induction false} RepeatIsJoin(f: Bytes, n: nat)
    ensures Repeat(f, n) == Join(seq(n, _ => f))
  {
    if n > 0 {
      RepeatIsJoin(f, n - 1);
      assert seq(n, _ => f)[..n - 1] == seq(n - 1, _ => f);
      RepeatEnds(f, n - 1);
    }
  }

  lemma {:induction false} RepeatEnds(f: Bytes, n: nat)
    ensures f + Repeat(f, n) == Repeat(f, n) + f
  {
    if n > 0 {
      RepeatEnds(f, n - 1);
      assert f + (f + Repeat(f, n - 1)) == f + (Repeat(f, n - 1) + f) == (f + Repeat(f, n - 1)) + f;
    } else {
      assert f + [] == f == [] + f;
    }
  }

  /** `decode(pad(s))` for a string over the alphabet: it fails exactly for the lengths that no
      encoding has. */
  lemma DecodePadded(s: Bytes, a: Alphabet)
    requires AllSymbols(s, a)
    ensures DecodeWith(Pad(s, a), a) == if |s| % 4 == 1 then Error(TooMuchFill) else Bin(Octets(s, a))
  {
    hide Index, CountPadding, Octets, AllSymbols, Repeat;
    var f, k := Fill(a), FillsNeeded(|s|);
    RepeatIsJoin(f, k);
    assert GoodFills([f], |f|, a);
    DecodeCompleted(s, seq(k, _ => f), [f], |f|, a);
  }

  /** What `count_padding` takes off for a single fill is that many copies of it. */
  lemma {:induction false} FillIsRepeated(s: Bytes, f: Bytes)
    requires f != []
    ensures var p := CountPadding(s, [f]);
      p.length == |Repeat(f, p.count)| && s == s[..|s| - p.length] + Repeat(f, p.count)
    decreases |s|
  {
    if LastFill(s, [f]).Some? {
      assert LastFill(s, [f]).value == f;
      var t := s[..|s| - |f|];
      FillIsRepeated(t, f);
      var p := CountPadding(t, [f]);
      RepeatEnds(f, p.count);
      assert s == t + f;
      assert s[..|s| - (p.length + |f|)] == t[..|t| - p.length];
      assert t + f == t[..|t| - p.length] + (Repeat(f, p.count) + f);
    } else {
      assert s == s[..|s|] + [];
    }
  }

  /** Over all byte strings, `decode` accepts exactly symbols in a possible number followed by exactly
      the fill that completes them, and its result is that of the symbols. */
  lemma DecodeAccepts(base: Bytes, a: Alphabet)
    ensures DecodeWith(base, a).Bin? <==>
      exists s :: AllSymbols(s, a) && |s| % 4 != 1 && base == Pad(s, a)
    ensures forall s | AllSymbols(s, a) && |s| % 4 != 1 && base == Pad(s, a) :: DecodeWith(base, a) == Bin(Octets(s, a))
  {
    hide Index, CountPadding, Octets, AllSymbols, Repeat;
    if DecodeWith(base, a).Bin? {
      var f := Fill(a);
      var p := CountPadding(base, [f]);
      var s := base[..|base| - p.length];
      FillIsRepeated(base, f);
      assert p.count == FillsNeeded(|s|);
      assert base == Pad(s, a);
    }
    forall s | AllSymbols(s, a) && |s| % 4 != 1 && base == Pad(s, a) ensures DecodeWith(base, a) == Bin(Octets(s, a)) {
      DecodePadded(s, a);
    }
  }

  /** Decoding is defined exactly for the possible lengths, and gives three octets for four symbols. */
  lemma DecodeDefined(s: Bytes, a: Alphabet)
    requires AllSymbols(s, a)
    ensures DecodeWith(Pad(s, a), a).Bin? <==> |s| % 4 != 1
    ensures |s| % 4 != 1 ==> |DecodeWith(Pad(s, a), a).bin| == 3 * |s| / 4
  {
    hide *;
    DecodePadded(s, a);
    if |s| % 4 != 1 {
      OctetCount(s, a);
    }
  }

  lemma FourMore(n: nat)
    ensures 3 * (n + 4) / 4 == 3 + 3 * n / 4 && (n + 4) % 4 == n % 4
  {
  }

  lemma ShortCount(s: Bytes, a: Alphabet)
    requires AllSymbols(s, a) && |s| < 4 && |s| != 1
    ensures |Octets(s, a)| == 3 * |s| / 4
  {
    hide Index, Octet;
  }

  lemma {:induction false} OctetCount(s: Bytes, a: Alphabet)
    requires AllSymbols(s, a) && |s| % 4 != 1
    ensures |Octets(s, a)| == 3 * |s| / 4
    decreases |s|
  {
    hide *;
    if |s| >= 4 {
      OctetsStep(s, a);
      BlockLength(s[..4], a);
      FourMore(|s| - 4);
      OctetCount(s[4..], a);
    } else {
      ShortCount(s, a);
    }
  }

  // ----- one group -----

  lemma TripleOfGroup(x: byte, y: byte, z: byte)
    ensures var t := Triple(x, y, z);
      Group(Sextet(t, 3), Sextet(t, 2), Sextet(t, 1), Sextet(t, 0)) == t &&
      Octet(t, 2) == x as int && Octet(t, 1) == y as int && Octet(t, 0) == z as int
  {
    hide Triple;
    var t := Triple(x, y, z);
    OctetsOfTriple(x, y, z);
    DivChain(t);
  }

  lemma OctetsOfTriple(x: byte, y: byte, z: byte)
    ensures var t := Triple(x, y, z);
      t < 0x1000000 && Octet(t, 2) == x as int && Octet(t, 1) == y as int && Octet(t, 0) == z as int
  {
    var t := Triple(x, y, z);
    assert t / 0x100 == x as int * 0x100 + y as int;
    assert t / 0x10000 == x as int;
  }

  lemma DivChain(t: nat)
    requires t < 0x1000000
    ensures Group(Sextet(t, 3), Sextet(t, 2), Sextet(t, 1), Sextet(t, 0)) == t
  {
    var p := t / 0x40;
    var q := p / 0x40;
    var r := q / 0x40;
    assert t == p * 0x40 + t % 0x40 && p == q * 0x40 + p % 0x40 && q == r * 0x40 + q % 0x40;
    assert t / 0x1000 == q;
    assert t / 0x40000 == r;
  }

  /** Division by one of the powers of two that the shifts stand for. */
  lemma Quotient(t: nat, d: nat, q: nat, r: nat)
    requires d == 4 || d == 16 || d == 0x40 || d == 0x100 || d == 0x1000 || d == 0x10000 || d == 0x40000
    requires t == q * d + r && r < d
    ensures t / d == q && t % d == r
  {
    if d == 4 {
    } else if d == 16 {
    } else if d == 0x40 {
    } else if d == 0x100 {
    } else if d == 0x1000 {
    } else if d == 0x10000 {
    }
  }

  lemma SextetsOfGroup(w: nat, x: nat, y: nat, z: nat)
    requires w < 64 && x < 64 && y < 64 && z < 64
    ensures var t := Group(w, x, y, z);
      Sextet(t, 3) == w && Sextet(t, 2) == x && Sextet(t, 1) == y && Sextet(t, 0) == z
  {
    var t := Group(w, x, y, z);
    Quotient(t, 0x40, w * 0x1000 + x * 0x40 + y, z);
    Quotient(w * 0x1000 + x * 0x40 + y, 0x40, w * 0x40 + x, y);
    Quotient(t, 0x1000, w * 0x40 + x, y * 0x40 + z);
    Quotient(w * 0x40 + x, 0x40, w, x);
    Quotient(t, 0x40000, w, x * 0x1000 + y * 0x40 + z);
    Quotient(w, 0x40, 0, w);
  }

  lemma TripleOfOctets(t: nat)
    requires t < 0x1000000
    ensures Triple(Octet(t, 2) as char, Octet(t, 1) as char, Octet(t, 0) as char) == t
  {
    var p := t / 0x100;
    var q := p / 0x100;
    assert t == p * 0x100 + t % 0x100 && p == q * 0x100 + p % 0x100;
    Quotient(t, 0x10000, q, p % 0x100 * 0x100 + t % 0x100);
    Quotient(q, 0x100, 0, q);
  }

  lemma GroupOfTriple(w: nat, x: nat, y: nat, z: nat)
    requires w < 64 && x < 64 && y < 64 && z < 64
    ensures var t := Group(w, x, y, z);
      Sextet(t, 3) == w && Sextet(t, 2) == x && Sextet(t, 1) == y && Sextet(t, 0) == z &&
      Triple(Octet(t, 2) as char, Octet(t, 1) as char, Octet(t, 0) as char) == t
  {
    hide Sextet, Octet, Triple;
    SextetsOfGroup(w, x, y, z);
    TripleOfOctets(Group(w, x, y, z));
  }

  lemma BlockRoundTrip(x: byte, y: byte, z: byte, a: Alphabet)
    ensures AllSymbols(EncodeBlock(x, y, z, a), a) && |EncodeBlock(x, y, z, a)| == 4
    ensures DecodeBlock(EncodeBlock(x, y, z, a), a) == [x, y, z]
  {
    hide Index, Symbol, Sextet, Octet;
    var t := Triple(x, y, z);
    IndexOfSymbol(a, Sextet(t, 3));
    IndexOfSymbol(a, Sextet(t, 2));
    IndexOfSymbol(a, Sextet(t, 1));
    IndexOfSymbol(a, Sextet(t, 0));
    TripleOfGroup(x, y, z);
  }

  // ----- round trip -----

  /** The octets of the symbols of `x` are `x`. */
  lemma {:induction false} SymbolsRoundTrip(x: Bytes, a: Alphabet)
    ensures AllSymbols(Symbols(x, a), a)
    ensures |Symbols(x, a)| % 4 == (if |x| % 3 == 0 then 0 else |x| % 3 + 1)
    ensures Octets(Symbols(x, a), a) == x
    decreases |x|
  {
    hide *;
    if x == [] {
      EmptyRoundTrip(a);
    } else if |x| < 3 {
      ShortRoundTrip(x, a);
    } else {
      var block, rest := EncodeBlock(x[0], x[1], x[2], a), Symbols(x[3..], a);
      SymbolsRoundTrip(x[3..], a);
      BlockRoundTrip(x[0], x[1], x[2], a);
      assert x == [x[0], x[1], x[2]] + x[3..];
      SymbolsStep(x, a);
      GroupsAddUp(|x| - 3, |rest|);
      var s := block + rest;
      assert s[..4] == block && s[4..] == rest;
      OctetsStep(s, a);
    }
  }

  lemma GroupsAddUp(m: nat, n: nat)
    ensures (m + 3) % 3 == m % 3 && (n + 4) % 4 == n % 4
  {
  }

  lemma EmptyRoundTrip(a: Alphabet)
    ensures Symbols([], a) == [] && AllSymbols([], a) && Octets([], a) == []
  {
  }

  lemma ShortRoundTrip(x: Bytes, a: Alphabet)
    requires 0 < |x| < 3
    ensures AllSymbols(Symbols(x, a), a)
    ensures |Symbols(x, a)| == |x| + 1
    ensures Octets(Symbols(x, a), a) == x
  {
    hide Index, Symbol, Sextet, Octet;
    var y: byte := if |x| == 2 then x[1] else NUL;
    var t := Triple(x[0], y, NUL);
    TripleOfGroup(x[0], y, NUL);
    IndexOfSymbol(a, Sextet(t, 3));
    IndexOfSymbol(a, Sextet(t, 2));
    IndexOfSymbol(a, Sextet(t, 1));
    LowZero(x[0], y);
    assert if |x| == 1 then x == [x[0]] else x == [x[0], x[1]];
  }

  /** Groups with missing bytes end in zero sextets. */
  lemma LowZero(x: byte, y: byte)
    ensures Sextet(Triple(x, y, NUL), 0) == 0
    ensures Sextet(Triple(x, NUL, NUL), 1) == 0
  {
  }

  lemma EncodeIsPaddedSymbols(x: Bytes, a: Alphabet)
    ensures Encode(x, a) == Pad(Symbols(x, a), a)
  {
    hide *;
    SymbolsRoundTrip(x, a);
    EncodeUnfold(x, a);
    PadUnfold(Symbols(x, a), a);
  }

  lemma EncodeUnfold(x: Bytes, a: Alphabet)
    ensures Encode(x, a) == Symbols(x, a) + Repeat(Fill(a), if |x| % 3 == 0 then 0 else 3 - |x| % 3)
  {
  }

  lemma PadUnfold(s: Bytes, a: Alphabet)
    ensures Pad(s, a) == s + Repeat(Fill(a), FillsNeeded(|s|))
  {
  }

  /** decode(encode(x)) = x, for both alphabets. */
  lemma RoundTrip(x: Bytes, a: Alphabet)
    ensures DecodeWith(Encode(x, a), a) == Bin(x)
  {
    hide *;
    EncodeIsPaddedSymbols(x, a);
    SymbolsRoundTrip(x, a);
    DecodePadded(Symbols(x, a), a);
  }

  // ----- trimming -----

  lemma {:induction false} NoFillInside(s: Bytes, tail: Bytes, f: Bytes, from: nat, a: Alphabet)
    requires AllSymbols(s, a) && f != [] && Index(a, f[0]) == NO_INDEX && from <= |s|
    requires tail == [] || OccursAt(s + tail, f, |s|)
    ensures FindFill(s + tail, f, from) == |s|
    decreases |s| - from
  {
    hide Index;
    if from < |s| {
      assert !OccursAt(s + tail, f, from);
      NoFillInside(s, tail, f, from + 1, a);
    }
  }

  /** `trim` takes off exactly what `pad` has put on, even though part of the fill of base64url
      consists of symbols. */
  lemma TrimPad(s: Bytes, a: Alphabet)
    requires AllSymbols(s, a)
    ensures Trim(Pad(s, a), a) == s
  {
    hide Index, AllSymbols, FindFill;
    var f := Fill(a);
    var k := FillsNeeded(|s|);
    var tail := Repeat(f, k);
    assert Pad(s, a) == s + tail;
    if k > 0 {
      assert tail == f + Repeat(f, k - 1);
      assert (s + tail)[|s|..|s| + |f|] == f;
    }
    NoFillInside(s, tail, f, 0, a);
    assert (s + tail)[..|s|] == s;
  }

  /** What the token layer writes: `trim(encode(x))` is the bare symbols. */
  lemma TrimEncode(x: Bytes, a: Alphabet)
    ensures Trim(Encode(x, a), a) == Symbols(x, a)
  {
    hide *;
    EncodeIsPaddedSymbols(x, a);
    SymbolsRoundTrip(x, a);
    TrimPad(Symbols(x, a), a);
  }

  /** decode(pad(trim(encode(x)))) = x, for both alphabets. */
  lemma TrimmedRoundTrip(x: Bytes, a: Alphabet)
    ensures DecodeWith(Pad(Trim(Encode(x, a), a), a), a) == Bin(x)
  {
    hide *;
    TrimEncode(x, a);
    SymbolsRoundTrip(x, a);
    DecodePadded(Symbols(x, a), a);
  }

  /** The percent-encoding variant decodes what base64url encodes, with its fills in either case. */
  lemma PercentRoundTrip(x: Bytes, fs: seq<Bytes>)
    requires |fs| == FillsNeeded(|Symbols(x, Base64Url)|)
    requires forall i | 0 <= i < |fs| :: fs[i] in ["%3D", "%3d"]
    ensures [] !in PERCENT_FILLS
    ensures Decode(Symbols(x, Base64Url) + Join(fs), Base64Url, PERCENT_FILLS) == Bin(x)
  {
    hide Octets, Symbols, AllSymbols, CountPadding;
    SymbolsRoundTrip(x, Base64Url);
    assert GoodFills(PERCENT_FILLS, 3, Base64Url);
    DecodeCompleted(Symbols(x, Base64Url), fs, PERCENT_FILLS, 3, Base64Url);
  }

  // ----- the kernel of decoding, section 3.5 of RFC 4648 -----

  /** How many values the unused low bits of the last of `n` symbols can take. */
  function Slack(n: nat): nat {
    if n % 4 == 2 then 16 else if n % 4 == 3 then 4 else 1
  }

  /** Equal but for the unused bits of the last symbol. */
  predicate SameBits(s: Bytes, t: Bytes, a: Alphabet) {
    |s| == |t| &&
    (s != [] ==>
     s[..|s| - 1] == t[..|s| - 1] &&
     Index(a, s[|s| - 1]) / Slack(|s|) == Index(a, t[|s| - 1]) / Slack(|s|))
  }

  lemma GroupDeterminesSextets(s: Bytes, t: Bytes, a: Alphabet)
    requires |s| == |t| == 4 && AllSymbols(s, a) && AllSymbols(t, a)
    ensures DecodeBlock(s, a) == DecodeBlock(t, a) <==> s == t
  {
    hide Index, Octet, Sextet;
    if DecodeBlock(s, a) == DecodeBlock(t, a) {
      GroupOfTriple(Index(a, s[0]), Index(a, s[1]), Index(a, s[2]), Index(a, s[3]));
      GroupOfTriple(Index(a, t[0]), Index(a, t[1]), Index(a, t[2]), Index(a, t[3]));
      var u := Group(Index(a, s[0]), Index(a, s[1]), Index(a, s[2]), Index(a, s[3]));
      var v := Group(Index(a, t[0]), Index(a, t[1]), Index(a, t[2]), Index(a, t[3]));
      assert DecodeBlock(s, a)[0] == DecodeBlock(t, a)[0] && DecodeBlock(s, a)[1] == DecodeBlock(t, a)[1]
        && DecodeBlock(s, a)[2] == DecodeBlock(t, a)[2];
      assert u == v;
      forall i | 0 <= i < 4 ensures s[i] == t[i] {
        SymbolOfIndex(a, s[i]);
        SymbolOfIndex(a, t[i]);
      }
    }
  }

  lemma HighOctet(w: nat, x: nat, low: nat)
    requires w < 64 && x < 64 && low < 0x1000
    ensures Octet(w * 0x40000 + x * 0x1000 + low, 2) == w * 4 + x / 16
  {
    var p, q := x / 16, x % 16;
    assert x == p * 16 + q;
    Quotient(w * 0x40000 + x * 0x1000 + low, 0x10000, w * 4 + p, q * 0x1000 + low);
    Quotient(w * 4 + p, 0x100, 0, w * 4 + p);
  }

  lemma MiddleOctet(w: nat, x: nat, y: nat)
    requires w < 64 && x < 64 && y < 64
    ensures Octet(w * 0x40000 + x * 0x1000 + y * 0x40, 1) == x % 16 * 16 + y / 4
  {
    var p, q, r := x / 16, x % 16, y / 4;
    assert x == p * 16 + q && y == r * 4 + y % 4;
    Quotient(w * 0x40000 + x * 0x1000 + y * 0x40, 0x100, w * 0x400 + x * 0x10 + r, y % 4 * 0x40);
    Quotient(w * 0x400 + x * 0x10 + r, 0x100, w * 4 + p, q * 0x10 + r);
  }

  /** An incomplete group keeps the high bits of its last symbol only. */
  lemma ShortOctets(w: nat, x: nat, y: nat)
    requires w < 64 && x < 64 && y < 64
    ensures Octet(Group(w, x, 0, 0), 2) == w * 4 + x / 16
    ensures Octet(Group(w, x, y, 0), 2) == w * 4 + x / 16
    ensures Octet(Group(w, x, y, 0), 1) == x % 16 * 16 + y / 4
  {
    hide Octet;
    HighOctet(w, x, 0);
    HighOctet(w, x, y * 0x40);
    MiddleOctet(w, x, y);
  }

  lemma KernelOfTwo(s: Bytes, t: Bytes, a: Alphabet)
    requires |s| == |t| == 2 && AllSymbols(s, a) && AllSymbols(t, a)
    ensures Octets(s, a) == Octets(t, a) <==> SameBits(s, t, a)
  {
    hide Index, Octet;
    var w, x, w', x' := Index(a, s[0]), Index(a, s[1]), Index(a, t[0]), Index(a, t[1]);
    SymbolOfIndex(a, s[0]);
    SymbolOfIndex(a, t[0]);
    ShortOctets(w, x, 0);
    ShortOctets(w', x', 0);
    assert s[..1] == [s[0]] && t[..1] == [t[0]];
    assert s[..1] == t[..1] <==> w == w';
    assert Octets(s, a) == Octets(t, a) <==> w * 4 + x / 16 == w' * 4 + x' / 16;
  }

  lemma OctetsOfThree(s: Bytes, a: Alphabet)
    requires |s| == 3 && AllSymbols(s, a)
    ensures var w, x, y := Index(a, s[0]), Index(a, s[1]), Index(a, s[2]);
      Octets(s, a) == [(w * 4 + x / 16) as char, (x % 16 * 16 + y / 4) as char]
  {
    hide Index, Octet;
    ShortOctets(Index(a, s[0]), Index(a, s[1]), Index(a, s[2]));
  }

  lemma HighBits(w: nat, x: nat, y: nat, w': nat, x': nat, y': nat)
    requires w < 64 && x < 64 && y < 64 && w' < 64 && x' < 64 && y' < 64
    ensures w * 4 + x / 16 == w' * 4 + x' / 16 && x % 16 * 16 + y / 4 == x' % 16 * 16 + y' / 4 <==>
      w == w' && x == x' && y / 4 == y' / 4
  {
    assert x == x / 16 * 16 + x % 16 && x' == x' / 16 * 16 + x' % 16;
  }

  lemma KernelOfThree(s: Bytes, t: Bytes, a: Alphabet)
    requires |s| == |t| == 3 && AllSymbols(s, a) && AllSymbols(t, a)
    ensures Octets(s, a) == Octets(t, a) <==> SameBits(s, t, a)
  {
    hide Index, Octets;
    OctetsOfThree(s, a);
    OctetsOfThree(t, a);
    HighBits(Index(a, s[0]), Index(a, s[1]), Index(a, s[2]), Index(a, t[0]), Index(a, t[1]), Index(a, t[2]));
    SymbolOfIndex(a, s[0]);
    SymbolOfIndex(a, t[0]);
    SymbolOfIndex(a, s[1]);
    SymbolOfIndex(a, t[1]);
    assert s[..2] == [s[0], s[1]] && t[..2] == [t[0], t[1]];
  }

  lemma SameBitsStep(s: Bytes, t: Bytes, a: Alphabet)
    requires |s| == |t| >= 4 && AllSymbols(s, a) && AllSymbols(t, a)
    ensures SameBits(s, t, a) <==> s[..4] == t[..4] && SameBits(s[4..], t[4..], a)
  {
    hide Index, Slack;
    var n := |s| - 1;
    if |s| > 4 {
      SlackStep(|s|);
      var u, v := s[4..], t[4..];
      assert u[|u| - 1] == s[n] && v[|v| - 1] == t[n];
      assert s[..n][..4] == s[..4] && t[..n][..4] == t[..4];
      assert s[..n][4..] == u[..|u| - 1] && t[..n][4..] == v[..|v| - 1];
      assert s[..n] == s[..4] + u[..|u| - 1] && t[..n] == t[..4] + v[..|v| - 1];
    } else {
      SlackStep(4);
      SymbolOfIndex(a, s[n]);
      SymbolOfIndex(a, t[n]);
      assert s[..4] == s == s[..n] + [s[n]] && t[..4] == t == t[..n] + [t[n]];
      assert s[4..] == [] == t[4..];
    }
  }

  lemma SlackStep(n: nat)
    requires n >= 4
    ensures Slack(n) == Slack(n - 4) && Slack(4) == 1
  {
  }

  lemma {:induction false} OctetsKernel(s: Bytes, t: Bytes, a: Alphabet)
    requires AllSymbols(s, a) && AllSymbols(t, a) && |s| == |t| && |s| % 4 != 1
    ensures Octets(s, a) == Octets(t, a) <==> SameBits(s, t, a)
    decreases |s|
  {
    hide Index, Octet, DecodeBlock, SameBits;
    if s == [] {
      assert SameBits(s, t, a) by {
        EmptySameBits(s, t, a);
      }
    } else if |s| == 2 {
      KernelOfTwo(s, t, a);
    } else if |s| == 3 {
      KernelOfThree(s, t, a);
    } else {
      OctetsStep(s, a);
      OctetsStep(t, a);
      OctetsKernel(s[4..], t[4..], a);
      GroupDeterminesSextets(s[..4], t[..4], a);
      SameBitsStep(s, t, a);
      var x, y := DecodeBlock(s[..4], a), DecodeBlock(t[..4], a);
      BlockLength(s[..4], a);
      BlockLength(t[..4], a);
      assert (x + Octets(s[4..], a))[..3] == x && (y + Octets(t[4..], a))[..3] == y;
      assert (x + Octets(s[4..], a))[3..] == Octets(s[4..], a) && (y + Octets(t[4..], a))[3..] == Octets(t[4..], a);
    }
  }

  lemma EmptySameBits(s: Bytes, t: Bytes, a: Alphabet)
    requires s == [] && t == []
    ensures SameBits(s, t, a)
  {
  }

  lemma BlockLength(s: Bytes, a: Alphabet)
    requires AllSymbols(s, a) && |s| >= 4
    ensures |DecodeBlock(s, a)| == 3
  {
  }

  /** Two strings that decode give the same bytes exactly when they have the same length and differ
      at most in the unused bits at the end. */
  lemma DecodeKernel(s: Bytes, t: Bytes, a: Alphabet)
    requires AllSymbols(s, a) && AllSymbols(t, a) && |s| % 4 != 1 && |t| % 4 != 1
    ensures DecodeWith(Pad(s, a), a) == DecodeWith(Pad(t, a), a) <==> SameBits(s, t, a)
  {
    hide Octets, AllSymbols, Index, Decode, Pad;
    DecodePadded(s, a);
    DecodePadded(t, a);
    OctetCount(s, a);
    OctetCount(t, a);
    if |s| == |t| {
      OctetsKernel(s, t, a);
    }
  }

  /** The last symbol's unused bits are zero. */
  predicate Canonical(s: Bytes, a: Alphabet) {
    s != [] ==> Index(a, s[|s| - 1]) % Slack(|s|) == 0
  }

  lemma ShortCanonical(x: Bytes, a: Alphabet)
    requires 0 < |x| < 3
    ensures Canonical(Symbols(x, a), a)
  {
    hide Index, Symbol, Sextet;
    var y: byte := if |x| == 2 then x[1] else NUL;
    var t := Triple(x[0], y, NUL);
    IndexOfSymbol(a, Sextet(t, 2));
    IndexOfSymbol(a, Sextet(t, 1));
    LowBitsZero(x[0], y);
  }

  lemma CanonicalBehindBlock(block: Bytes, rest: Bytes, a: Alphabet)
    requires |block| == 4 && Canonical(rest, a)
    ensures Canonical(block + rest, a)
  {
    hide Index;
    if rest != [] {
      assert (block + rest)[|block + rest| - 1] == rest[|rest| - 1];
    }
  }

  lemma {:induction false} SymbolsCanonical(x: Bytes, a: Alphabet)
    ensures Canonical(Symbols(x, a), a)
    decreases |x|
  {
    hide Canonical, EncodeBlock;
    if x == [] {
      EmptyCanonical(a);
    } else if |x| < 3 {
      ShortCanonical(x, a);
    } else {
      BlockRoundTrip(x[0], x[1], x[2], a);
      SymbolsCanonical(x[3..], a);
      CanonicalBehindBlock(EncodeBlock(x[0], x[1], x[2], a), Symbols(x[3..], a), a);
    }
  }

  lemma EmptyCanonical(a: Alphabet)
    ensures Canonical([], a)
  {
  }

  lemma LowBitsZero(x: byte, y: byte)
    ensures Sextet(Triple(x, NUL, NUL), 2) % 16 == 0
    ensures Sextet(Triple(x, y, NUL), 1) % 4 == 0
  {
    var i, j := x as int, y as int;
    Quotient(Triple(x, NUL, NUL), 0x1000, i * 16, 0);
    Quotient(Triple(x, y, NUL), 0x40, i * 0x400 + j * 4, 0);
    Quotient(i * 16, 0x40, i / 4, i % 4 * 16);
    Quotient(i * 0x400 + j * 4, 0x40, i * 16 + j / 16, j % 16 * 4);
    Quotient(i % 4 * 16, 16, i % 4, 0);
    Quotient(j % 16 * 4, 4, j % 16, 0);
  }

  lemma CanonicalUnique(s: Bytes, t: Bytes, a: Alphabet)
    requires AllSymbols(s, a) && AllSymbols(t, a)
    requires SameBits(s, t, a) && Canonical(s, a) && Canonical(t, a)
    ensures s == t
  {
    hide Index;
    if s != [] {
      var n := |s| - 1;
      SymbolOfIndex(a, s[n]);
      SymbolOfIndex(a, t[n]);
      var i, j, k := Index(a, s[n]), Index(a, t[n]), Slack(|s|);
      assert k == 16 || k == 4 || k == 1;
      assert i == j;
      assert s == s[..n] + [s[n]] && t == t[..n] + [t[n]];
    }
  }

  /** Decoding and encoding again reproduces the text exactly when its unused bits are zero. */
  lemma ReencodeIffCanonical(s: Bytes, a: Alphabet)
    requires AllSymbols(s, a) && |s| % 4 != 1
    ensures DecodeWith(Pad(s, a), a).Bin?
    ensures Trim(Encode(DecodeWith(Pad(s, a), a).bin, a), a) == s <==> Canonical(s, a)
  {
    hide *;
    DecodePadded(s, a);
    var x := Octets(s, a);
    TrimEncode(x, a);
    SymbolsRoundTrip(x, a);
    SymbolsCanonical(x, a);
    OctetCount(s, a);
    OctetCount(Symbols(x, a), a);
    SameLength(|s|, |Symbols(x, a)|);
    OctetsKernel(s, Symbols(x, a), a);
    if Canonical(s, a) {
      CanonicalUnique(s, Symbols(x, a), a);
    }
  }

  lemma SameLength(m: nat, n: nat)
    requires m % 4 != 1 && n % 4 != 1 && 3 * m / 4 == 3 * n / 4
    ensures m == n
  {
    LengthFrom(m);
    LengthFrom(n);
  }

  /** The number of symbols, from the number of octets. */
  lemma LengthFrom(m: nat)
    requires m % 4 != 1
    ensures var k := 3 * m / 4;
      m == k / 3 * 4 + (if k % 3 == 0 then 0 else k % 3 + 1)
  {
    var q := m / 4;
    assert m == 4 * q + m % 4;
    if m % 4 == 0 {
      assert 3 * m / 4 == 3 * q;
    } else if m % 4 == 2 {
      assert 3 * m / 4 == 3 * q + 1;
    } else {
      assert 3 * m / 4 == 3 * q + 2;
    }
  }
}
