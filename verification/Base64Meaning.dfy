/** What the base64 code stands for, from the tables of RFC 4648 (sections 4 and 5): its alphabets,
    the bits that each symbol spells, and the fill. */
module Base64Meaning {
  import opened ByteStrings
  import opened Base64Code
  import opened Base64Laws

  // ----- the tables -----

  const UPPER: string := "ABCDEFGHIJKLMNOPQRSTUVWXYZ"
  const LOWER: string := "abcdefghijklmnopqrstuvwxyz"
  const FIGURES: string := "0123456789"

  function Table(a: Alphabet): string {
    UPPER + LOWER + FIGURES + (if a.Base64? then "+/" else "-_")
  }

  lemma TableParts(a: Alphabet, i: nat)
    requires i < 64
    ensures |Table(a)| == 64
    ensures i < 26 ==> Table(a)[i] == UPPER[i]
    ensures 26 <= i < 52 ==> Table(a)[i] == LOWER[i - 26]
    ensures 52 <= i < 62 ==> Table(a)[i] == FIGURES[i - 52]
    ensures Table(a)[62] == (if a.Base64? then '+' else '-') && Table(a)[63] == (if a.Base64? then '/' else '_')
  {
    assert |UPPER| == 26 && |LOWER| == 26 && |FIGURES| == 10;
  }

  lemma Ranges(i: nat)
    ensures |UPPER| == 26 && |LOWER| == 26 && |FIGURES| == 10
    ensures i < 26 ==> UPPER[i] as int == 'A' as int + i && LOWER[i] as int == 'a' as int + i
    ensures i < 10 ==> FIGURES[i] as int == '0' as int + i
  {
  }

  /** The ranges of `Symbol` are the table of the RFC ... */
  lemma SymbolExact(a: Alphabet, i: nat)
    requires i < 64
    ensures |Table(a)| == 64 && Symbol(a, i) == Table(a)[i]
  {
    hide Table, UPPER, LOWER, FIGURES;
    TableParts(a, i);
    Ranges(if i < 26 then i else if i < 52 then i - 26 else i - 52);
  }

  /** ... and those of `Index` its inverse. */
  lemma IndexExact(a: Alphabet, c: byte, i: int)
    ensures |Table(a)| == 64
    ensures 0 <= i < 64 ==> (Index(a, c) == i <==> Table(a)[i] == c)
    ensures Index(a, c) == NO_INDEX <==> c !in Table(a)
  {
    hide Table, Symbol, Index;
    TableParts(a, 0);
    if 0 <= i < 64 {
      SymbolExact(a, i);
      IndexOfSymbol(a, i);
    }
    if Index(a, c) != NO_INDEX {
      SymbolOfIndex(a, c);
      SymbolExact(a, Index(a, c));
      assert Table(a)[Index(a, c)] == c;
    } else if c in Table(a) {
      var k :| 0 <= k < |Table(a)| && Table(a)[k] == c;
      SymbolExact(a, k);
      IndexOfSymbol(a, k);
    }
  }

  /** A text of symbols is one whose bytes are all in the table. */
  lemma AllInTable(s: Bytes, a: Alphabet)
    ensures AllSymbols(s, a) <==> !exists i :: 0 <= i < |s| && s[i] !in Table(a)
  {
    hide Index, Table;
    forall i | 0 <= i < |s| ensures Index(a, s[i]) == NO_INDEX <==> s[i] !in Table(a) {
      IndexExact(a, s[i], 0);
    }
  }

  // ----- the bits -----

  /** A missing octet or symbol counts as zero. */
  function OctetAt(x: Bytes, i: int): nat {
    if 0 <= i < |x| then x[i] as int else 0
  }

  function SextetAt(s: Bytes, a: Alphabet, i: int): int {
    if 0 <= i < |s| then Index(a, s[i]) else 0
  }

  /** The number of the `k`-th group of three octets, and of four symbols. */
  function OctetGroup(x: Bytes, k: int): nat {
    OctetAt(x, 3 * k) * 65536 + OctetAt(x, 3 * k + 1) * 256 + OctetAt(x, 3 * k + 2)
  }

  function SextetGroup(s: Bytes, a: Alphabet, k: int): int {
    SextetAt(s, a, 4 * k) * 262144 + SextetAt(s, a, 4 * k + 1) * 4096 + SextetAt(s, a, 4 * k + 2) * 64 + SextetAt(s, a, 4 * k + 3)
  }

  lemma OctetShift(b: Bytes, x: Bytes, k: nat)
    requires |b| == 3
    ensures OctetGroup(b + x, k + 1) == OctetGroup(x, k)
    ensures OctetGroup(b + x, 0) == b[0] as int * 65536 + b[1] as int * 256 + b[2] as int
  {
  }

  lemma SextetShift(b: Bytes, s: Bytes, a: Alphabet, k: nat)
    requires |b| == 4
    ensures SextetGroup(b + s, a, k + 1) == SextetGroup(s, a, k)
    ensures SextetGroup(b + s, a, 0) == Index(a, b[0]) * 262144 + Index(a, b[1]) * 4096 + Index(a, b[2]) * 64 + Index(a, b[3])
  {
    hide Index;
  }

  lemma BlockBits(x: byte, y: byte, z: byte, a: Alphabet)
    ensures
      var b := EncodeBlock(x, y, z, a);
      |b| == 4 && Index(a, b[0]) * 262144 + Index(a, b[1]) * 4096 + Index(a, b[2]) * 64 + Index(a, b[3])
        == x as int * 65536 + y as int * 256 + z as int
  {
    hide Index, Symbol, Sextet, Octet;
    var t := Triple(x, y, z);
    IndexOfSymbol(a, Sextet(t, 3));
    IndexOfSymbol(a, Sextet(t, 2));
    IndexOfSymbol(a, Sextet(t, 1));
    IndexOfSymbol(a, Sextet(t, 0));
    TripleOfGroup(x, y, z);
  }

  lemma ShortBits(x: Bytes, a: Alphabet)
    requires |x| < 3
    ensures |Symbols(x, a)| == (if x == [] then 0 else |x| + 1) && SextetGroup(Symbols(x, a), a, 0) == OctetGroup(x, 0)
  {
    hide Index, Symbol, Sextet, Octet;
    if x != [] {
      var y: byte := if |x| == 2 then x[1] else NUL;
      var t := Triple(x[0], y, NUL);
      TripleOfGroup(x[0], y, NUL);
      IndexOfSymbol(a, Sextet(t, 3));
      IndexOfSymbol(a, Sextet(t, 2));
      IndexOfSymbol(a, Sextet(t, 1));
      LowZero(x[0], y);
    }
  }

  lemma NothingBehind(x: Bytes, s: Bytes, a: Alphabet, k: int)
    requires 3 * k >= |x| && 4 * k >= |s|
    ensures SextetGroup(s, a, k) == OctetGroup(x, k) == 0
  {
  }

  /** Encoding keeps the bits in their order, the most significant first: each group of four symbols
      and the group of three octets that it stands for are one 24-bit number, missing octets counting
      as zero. With the number of symbols that fixes every one of them. */
  lemma {:induction false} SymbolsMeaning(x: Bytes, a: Alphabet, k: nat)
    ensures |Symbols(x, a)| == (4 * |x| + 2) / 3
    ensures SextetGroup(Symbols(x, a), a, k) == OctetGroup(x, k)
    decreases |x|
  {
    hide *;
    if |x| < 3 {
      ShortBits(x, a);
      if k > 0 {
        NothingBehind(x, Symbols(x, a), a, k);
      }
    } else {
      var b := EncodeBlock(x[0], x[1], x[2], a);
      SymbolsStep(x, a);
      BlockBits(x[0], x[1], x[2], a);
      assert x == [x[0], x[1], x[2]] + x[3..];
      SymbolsMeaning(x[3..], a, if k == 0 then 0 else k - 1);
      OctetShift([x[0], x[1], x[2]], x[3..], if k == 0 then 0 else k - 1);
      SextetShift(b, Symbols(x[3..], a), a, if k == 0 then 0 else k - 1);
    }
  }

  // ----- the fill -----

  /** An encoding is its symbols, and one fill for each octet that the last group lacks. */
  lemma EncodeExact(x: Bytes, a: Alphabet)
    ensures
      var fill: Bytes := if a.Base64? then "=" else "%3d";
      Encode(x, a) == Symbols(x, a) + (if |x| % 3 == 1 then fill + fill else if |x| % 3 == 2 then fill else [])
  {
    hide Symbols;
    var fill := Fill(a);
    assert Repeat(fill, 1) == fill + [] && Repeat(fill, 2) == fill + Repeat(fill, 1);
  }

  /** `pad` completes the symbols to a multiple of four. */
  lemma PadExact(s: Bytes, a: Alphabet)
    ensures
      var fill: Bytes := if a.Base64? then "=" else "%3d";
      Pad(s, a) == s + (if |s| % 4 == 1 then fill + fill + fill else if |s| % 4 == 2 then fill + fill
                        else if |s| % 4 == 3 then fill else [])
  {
    var fill := Fill(a);
    assert Repeat(fill, 1) == fill + [] && Repeat(fill, 2) == fill + Repeat(fill, 1) && Repeat(fill, 3) == fill + Repeat(fill, 2);
    assert fill + (fill + fill) == fill + fill + fill;
  }

  lemma CountsOne(s: Bytes, f: Bytes)
    requires f != []
    ensures !EndsWith(s, f) ==> CountPadding(s, [f]) == Padding(0, 0)
    ensures CountPadding(s + f, [f]) == Padding(1 + CountPadding(s, [f]).count, |f| + CountPadding(s, [f]).length)
  {
    assert LastFill(s, [f]) == if EndsWith(s, f) then Some(f) else LastFill(s, []);
    assert (s + f)[|s|..] == f && (s + f)[..|s|] == s;
    assert EndsWith(s + f, f);
    assert LastFill(s + f, [f]) == Some(f);
  }

  lemma {:induction false} CountsRepeated(s: Bytes, f: Bytes, k: nat)
    requires f != [] && !EndsWith(s, f)
    ensures CountPadding(s + Repeat(f, k), [f]) == Padding(k, |Repeat(f, k)|)
    decreases k
  {
    hide CountPadding, EndsWith;
    CountsOne(s, f);
    if k == 0 {
      assert s + [] == s;
    } else {
      CountsRepeated(s, f, k - 1);
      RepeatEnds(f, k - 1);
      CountsOne(s + Repeat(f, k - 1), f);
      Regrouped(s, Repeat(f, k - 1), f);
    }
  }

  /** `decode` on every byte string, taken apart into what stands in front of its fills and how many
      there are: more than two fills are too many; then the count has to be a multiple of four; then
      all that stands in front has to be in the alphabet. Each failure has its own error. */
  lemma DecodeOutcome(s: Bytes, k: nat, a: Alphabet)
    requires !EndsWith(s, Fill(a))
    ensures DecodeWith(s + Repeat(Fill(a), k), a) ==
      if k > 2 then Error(TooMuchFill)
      else if |s| % 4 != (if k == 0 then 0 else 4 - k) then Error(WrongSize)
      else if !AllSymbols(s, a) then Error(NotInAlphabet)
      else Bin(Octets(s, a))
  {
    hide *;
    CountsRepeated(s, Fill(a), k);
    var base := s + Repeat(Fill(a), k);
    assert base[..|base| - |Repeat(Fill(a), k)|] == s;
    DecodeIs(base, s, Padding(k, |Repeat(Fill(a), k)|), a);
    if k <= 2 {
      CompletesIff(|s|, k);
    }
  }

  lemma CompletesIff(n: nat, k: nat)
    requires k <= 2
    ensures (n + k) % 4 == 0 <==> n % 4 == if k == 0 then 0 else 4 - k
  {
  }

  lemma DecodeIs(base: Bytes, s: Bytes, p: Padding, a: Alphabet)
    requires CountPadding(base, [Fill(a)]) == p && p.length <= |base| && base[..|base| - p.length] == s
    ensures DecodeWith(base, a) ==
      if p.count > 2 then Error(TooMuchFill)
      else if (|s| + p.count) % 4 != 0 then Error(WrongSize)
      else if !AllSymbols(s, a) then Error(NotInAlphabet)
      else Bin(Octets(s, a))
  {
    hide CountPadding, AllSymbols, Octets, Fill;
  }

  /** Every byte string is something that does not end in the fill, followed by some number of fills. */
  lemma {:induction false} TakenApart(base: Bytes, f: Bytes) returns (s: Bytes, k: nat)
    requires f != []
    ensures base == s + Repeat(f, k) && !EndsWith(s, f)
    decreases |base|
  {
    if EndsWith(base, f) {
      var shorter := base[..|base| - |f|];
      s, k := TakenApart(shorter, f);
      assert base == shorter + f;
      RepeatEnds(f, k);
      Regrouped(s, Repeat(f, k), f);
      k := k + 1;
    } else {
      s, k := base, 0;
      assert base + [] == base;
    }
  }

  lemma {:induction false} RepeatTwice(f: Bytes, m: nat, n: nat)
    ensures Repeat(f, m) + Repeat(f, n) == Repeat(f, m + n)
    ensures |Repeat(f, m)| == m * |f|
    decreases m
  {
    if m == 0 {
      assert [] + Repeat(f, n) == Repeat(f, n);
    } else {
      RepeatTwice(f, m - 1, n);
      Regrouped(f, Repeat(f, m - 1), Repeat(f, n));
    }
  }

  lemma SymbolsDoNotEnd(s: Bytes, a: Alphabet)
    requires AllSymbols(s, a)
    ensures !EndsWith(s, Fill(a))
  {
    hide Index;
    var n := |s| - |Fill(a)|;
    if n >= 0 {
      assert Index(a, s[n]) != NO_INDEX && s[n..][0] == s[n];
    }
  }

  // ----- decoding -----

  /** The octets of full groups are the bits of their symbols; those of the last, shorter group are
      its high bits. */
  lemma {:induction false} OctetsMeaning(s: Bytes, a: Alphabet, k: nat)
    requires AllSymbols(s, a) && |s| % 4 != 1
    ensures |Octets(s, a)| == 3 * |s| / 4
    ensures
      var g, n := SextetGroup(s, a, k), |Octets(s, a)| - 3 * k;
      OctetGroup(Octets(s, a), k) == if n >= 3 || n <= 0 then g else if n == 2 then g - g % 256 else g - g % 65536
    decreases |s|
  {
    hide *;
    OctetCount(s, a);
    if |s| < 4 {
      if k == 0 {
        ShortOctetBits(s, a);
      } else {
        ShortCount(s, a);
        NothingBehind(Octets(s, a), s, a, k);
      }
    } else {
      OctetsStep(s, a);
      BlockLength(s[..4], a);
      OctetBits(s[..4], a);
      assert s == s[..4] + s[4..];
      FourMore(|s| - 4);
      OctetsMeaning(s[4..], a, if k == 0 then 0 else k - 1);
      OctetShift(DecodeBlock(s[..4], a), Octets(s[4..], a), if k == 0 then 0 else k - 1);
      SextetShift(s[..4], s[4..], a, if k == 0 then 0 else k - 1);
    }
  }

  lemma OctetBits(b: Bytes, a: Alphabet)
    requires |b| == 4 && AllSymbols(b, a)
    ensures
      var o := DecodeBlock(b, a);
      |o| == 3 && o[0] as int * 65536 + o[1] as int * 256 + o[2] as int
        == Index(a, b[0]) * 262144 + Index(a, b[1]) * 4096 + Index(a, b[2]) * 64 + Index(a, b[3])
  {
    hide Index, Octet;
    TripleOfOctets(Group(Index(a, b[0]), Index(a, b[1]), Index(a, b[2]), Index(a, b[3])));
  }

  lemma ShortOctetBits(s: Bytes, a: Alphabet)
    requires AllSymbols(s, a) && |s| < 4 && |s| != 1
    ensures
      var g, n := SextetGroup(s, a, 0), |Octets(s, a)|;
      OctetGroup(Octets(s, a), 0) == if n == 0 then g else if n == 2 then g - g % 256 else g - g % 65536
    ensures |Octets(s, a)| == 3 * |s| / 4
  {
    hide Index, Octet, SextetGroup, OctetGroup;
    if s == [] {
      NothingBehind([], s, a, 0);
    } else if |s| == 2 {
      HighPart(Group(Index(a, s[0]), Index(a, s[1]), 0, 0));
      TwoSymbols(s, a);
      OneOctet(Octets(s, a)[0]);
    } else {
      HighPart(Group(Index(a, s[0]), Index(a, s[1]), Index(a, s[2]), 0));
      ThreeSymbols(s, a);
      TwoOctets(Octets(s, a)[0], Octets(s, a)[1]);
    }
  }

  lemma TwoSymbols(s: Bytes, a: Alphabet)
    requires |s| == 2 && AllSymbols(s, a)
    ensures SextetGroup(s, a, 0) == Group(Index(a, s[0]), Index(a, s[1]), 0, 0)
  {
    hide Index;
  }

  lemma ThreeSymbols(s: Bytes, a: Alphabet)
    requires |s| == 3 && AllSymbols(s, a)
    ensures SextetGroup(s, a, 0) == Group(Index(a, s[0]), Index(a, s[1]), Index(a, s[2]), 0)
  {
    hide Index;
  }

  lemma OneOctet(x: byte)
    ensures OctetGroup([x], 0) == x as int * 65536
  {
  }

  lemma TwoOctets(x: byte, y: byte)
    ensures OctetGroup([x, y], 0) == x as int * 65536 + y as int * 256
  {
  }

  lemma HighPart(t: nat)
    requires t < 0x1000000
    ensures Octet(t, 2) * 65536 == t - t % 65536
    ensures Octet(t, 2) * 65536 + Octet(t, 1) * 256 == t - t % 256
  {
    var p := t / 0x100;
    var q := p / 0x100;
    assert t == p * 0x100 + t % 0x100 && p == q * 0x100 + p % 0x100;
    Quotient(t, 0x10000, q, p % 0x100 * 0x100 + t % 0x100);
    Quotient(q, 0x100, 0, q);
  }

  // ----- segments of a token -----

  /** How many fills `pad` adds to `n` symbols that already have `m` fills of three bytes, and that the
      sum completes a group only when `m` is even. */
  lemma SegmentFills(n: nat, m: nat)
    ensures
      var k := m + FillsNeeded(n + 3 * m);
      k <= 2 && n % 4 == (if k == 0 then 0 else 4 - k) <==> (m == 0 && n % 4 != 1) || (m == 2 && n % 4 == 2)
  {
    var j := FillsNeeded(n + 3 * m);
    if m + j <= 2 {
      CompletesIff(n, m + j);
      assert (n + 3 * m + j) % 4 == 0;
      if m == 0 {
      } else if m == 1 {
      } else {
        assert j == 0;
      }
    }
  }

  /** `decode(pad(s))` by what `s` is made of. */
  lemma SegmentParts(s: Bytes, t: Bytes, m: nat, b: Bytes)
    requires s == t + Repeat(Fill(Base64Url), m) && !EndsWith(t, Fill(Base64Url))
    ensures DecodeWith(Pad(s, Base64Url), Base64Url) == Bin(b) <==>
      (m == 0 || (m == 2 && |t| % 4 == 2)) && SegmentOf(t, b)
  {
    hide *;
    var f, k := Fill(Base64Url), FillsNeeded(|s|);
    FillIs();
    PadIs(s);
    RepeatTwice(f, m, k);
    Regrouped(t, Repeat(f, m), Repeat(f, k));
    DecodeOutcome(t, m + k, Base64Url);
    SegmentFills(|t|, m);
    SegmentOfMeans(t, b);
  }

  /** Which texts `decode(pad(s))` accepts in base64url, and what it gives: symbols in a possible
      number, or two symbols more than a multiple of four with both of their fills already there. The
      second kind is an accident: the fill has three bytes, so `pad` takes such a text for complete. */
  lemma SegmentAccepts(s: Bytes, b: Bytes)
    ensures DecodeWith(Pad(s, Base64Url), Base64Url) == Bin(b) <==>
      SegmentOf(s, b) || (exists t: Bytes :: s == t + "%3d%3d" && |t| % 4 == 2 && SegmentOf(t, b))
  {
    hide *;
    var f := Fill(Base64Url);
    FillIs();
    TwoFills(f);
    var t, m := TakenApart(s, f);
    SegmentParts(s, t, m, b);
    ZeroFills(t, f);
    if SegmentOf(s, b) {
      SegmentOfMeans(s, b);
      SymbolsDoNotEnd(s, Base64Url);
      NoFillsLeft(s, t, f, m);
    }
    if u: Bytes :| s == u + "%3d%3d" && |u| % 4 == 2 && SegmentOf(u, b) {
      SegmentOfMeans(u, b);
      SymbolsDoNotEnd(u, Base64Url);
      SameParts(u, 2, t, m, f);
    }
  }

  /** Bare symbols in a possible number, and their octets. */
  predicate SegmentOf(s: Bytes, b: Bytes) {
    AllSymbols(s, Base64Url) && |s| % 4 != 1 && b == Octets(s, Base64Url)
  }

  lemma SegmentOfMeans(s: Bytes, b: Bytes)
    ensures SegmentOf(s, b) <==> AllSymbols(s, Base64Url) && |s| % 4 != 1 && b == Octets(s, Base64Url)
  {
  }

  lemma FillIs()
    ensures Fill(Base64Url) == "%3d" && |Fill(Base64Url)| == 3
  {
  }

  lemma PadIs(s: Bytes)
    ensures Pad(s, Base64Url) == s + Repeat(Fill(Base64Url), FillsNeeded(|s|))
  {
  }

  lemma TwoFills(f: Bytes)
    requires f == "%3d"
    ensures Repeat(f, 2) == "%3d%3d"
  {
    assert Repeat(f, 1) == f + [];
    assert Repeat(f, 2) == f + Repeat(f, 1);
  }

  lemma ZeroFills(s: Bytes, f: Bytes)
    ensures s + Repeat(f, 0) == s
  {
    assert Repeat(f, 0) == [];
  }

  lemma NoFillsLeft(s: Bytes, t: Bytes, f: Bytes, m: nat)
    requires f != [] && s == t + Repeat(f, m) && !EndsWith(s, f)
    ensures m == 0 && s == t
  {
    if m > 0 {
      EndsInFill(t, f, m);
    } else {
      ZeroFills(t, f);
    }
  }

  lemma EndsInFill(t: Bytes, f: Bytes, m: nat)
    requires m > 0
    ensures EndsWith(t + Repeat(f, m), f)
  {
    RepeatEnds(f, m - 1);
    var s := t + Repeat(f, m);
    Regrouped(t, Repeat(f, m - 1), f);
    assert s == (t + Repeat(f, m - 1)) + f;
  }

  lemma SameParts(s: Bytes, k: nat, t: Bytes, m: nat, f: Bytes)
    requires f != [] && s + Repeat(f, k) == t + Repeat(f, m) && !EndsWith(s, f) && !EndsWith(t, f)
    ensures k == m && s == t
  {
    hide CountPadding, EndsWith, Repeat;
    CountsRepeated(s, f, k);
    CountsRepeated(t, f, m);
    assert (s + Repeat(f, k))[..|s|] == s && (t + Repeat(f, m))[..|t|] == t;
  }
}
