/** base64 (section 4 of RFC 4648) and base64url (section 5) as `jwt::base` implements them. */
module Base64Code {
  import opened ByteStrings

  /** The two alphabets; a third one shares the symbols of base64url and differs in its fills. */
  datatype Alphabet = Base64 | Base64Url

  const NO_INDEX: int := -1

  /** `data()`, the table of symbols, written as its ranges. */
  function Symbol(a: Alphabet, i: nat): byte
    requires i < 64
  {
    if i < 26 then ('A' as int + i) as char
    else if i < 52 then ('a' as int + (i - 26)) as char
    else if i < 62 then ('0' as int + (i - 52)) as char
    else if i == 62 then (if a.Base64? then '+' else '-')
    else (if a.Base64? then '/' else '_')
  }

  /** `rdata()`, the table of indices, written as its ranges. */
  function Index(a: Alphabet, c: byte): (i: int)
    ensures NO_INDEX <= i < 64
  {
    if 'A' <= c <= 'Z' then c as int - 'A' as int
    else if 'a' <= c <= 'z' then c as int - 'a' as int + 26
    else if '0' <= c <= '9' then c as int - '0' as int + 52
    else if c == (if a.Base64? then '+' else '-') then 62
    else if c == (if a.Base64? then '/' else '_') then 63
    else NO_INDEX
  }

  /** The tables invert each other. */
  lemma IndexOfSymbol(a: Alphabet, i: nat)
    requires i < 64
    ensures Index(a, Symbol(a, i)) == i
  {
  }

  lemma SymbolOfIndex(a: Alphabet, c: byte)
    requires Index(a, c) != NO_INDEX
    ensures Symbol(a, Index(a, c)) == c
  {
  }

  function Fill(a: Alphabet): (f: Bytes)
    ensures f != [] && Index(a, f[0]) == NO_INDEX
  {
    if a.Base64? then "=" else "%3d"
  }

  /** `fill()` of the percent-encoding variant of base64url, which accepts either case. */
  const PERCENT_FILLS: seq<Bytes> := ["%3D", "%3d"]

  // ----- padding -----

  datatype Padding = Padding(count: nat, length: nat)

  predicate EndsWith(s: Bytes, t: Bytes) {
    |t| <= |s| && s[|s| - |t|..] == t
  }

  /** The first of the fills that `s` ends with. */
  function LastFill(s: Bytes, fills: seq<Bytes>): (r: Option<Bytes>)
    ensures r.Some? ==> r.value in fills && EndsWith(s, r.value)
  {
    if fills == [] then None
    else if EndsWith(s, fills[0]) then Some(fills[0])
    else LastFill(s, fills[1..])
  }

  /** `count_padding`. An empty fill would make the original recurse for ever. */
  function CountPadding(s: Bytes, fills: seq<Bytes>): (p: Padding)
    requires [] !in fills
    ensures p.length <= |s| && (p.count > 0 ==> p.length > 0)
    decreases |s|
  {
    match LastFill(s, fills)
    case None => Padding(0, 0)
    case Some(f) =>
      var p := CountPadding(s[..|s| - |f|], fills);
      Padding(1 + p.count, |f| + p.length)
  }

  // ----- encoding -----

  /** Bits `6 * k` to `6 * k + 5` of a 24-bit group, as the source's shift and mask take them. */
  function Sextet(triple: nat, k: nat): (r: nat)
    requires k < 4
    ensures r < 64
  {
    (if k == 3 then triple / 0x40000 else if k == 2 then triple / 0x1000 else if k == 1 then triple / 0x40 else triple) % 64
  }

  function Octet(triple: nat, k: nat): (r: nat)
    requires k < 3
    ensures r < 256
  {
    (if k == 2 then triple / 0x10000 else if k == 1 then triple / 0x100 else triple) % 256
  }

  function Triple(x: byte, y: byte, z: byte): nat {
    x as int * 0x10000 + y as int * 0x100 + z as int
  }

  /** The shifts and masks of the source, on 32-bit words, are those products and quotients. */
  lemma TripleBits(x: bv32, y: bv32, z: bv32)
    requires x < 256 && y < 256 && z < 256
    ensures (x << 0x10) + (y << 0x08) + z == x * 0x10000 + y * 0x100 + z
  {
  }

  lemma SextetBits(t: bv32)
    ensures (t >> 18) & 0x3f == t / 0x40000 % 64
    ensures (t >> 12) & 0x3f == t / 0x1000 % 64
    ensures (t >> 6) & 0x3f == t / 0x40 % 64
    ensures (t >> 0) & 0x3f == t % 64
  {
  }

  lemma OctetBits(t: bv32)
    ensures (t >> 16) & 0xff == t / 0x10000 % 256
    ensures (t >> 8) & 0xff == t / 0x100 % 256
    ensures (t >> 0) & 0xff == t % 256
  {
  }

  /** The symbols of `encode`, without the fill. */
  function Symbols(bin: Bytes, a: Alphabet): Bytes
    decreases |bin|
  {
    if bin == [] then []
    else if |bin| == 1 then
      var t := Triple(bin[0], NUL, NUL);
      [Symbol(a, Sextet(t, 3)), Symbol(a, Sextet(t, 2))]
    else if |bin| == 2 then
      var t := Triple(bin[0], bin[1], NUL);
      [Symbol(a, Sextet(t, 3)), Symbol(a, Sextet(t, 2)), Symbol(a, Sextet(t, 1))]
    else
      EncodeBlock(bin[0], bin[1], bin[2], a) + Symbols(bin[3..], a)
  }

  function EncodeBlock(x: byte, y: byte, z: byte, a: Alphabet): Bytes {
    var t := Triple(x, y, z);
    [Symbol(a, Sextet(t, 3)), Symbol(a, Sextet(t, 2)), Symbol(a, Sextet(t, 1)), Symbol(a, Sextet(t, 0))]
  }

  function Repeat(fill: Bytes, n: nat): Bytes {
    if n == 0 then [] else fill + Repeat(fill, n - 1)
  }

  function Encode(bin: Bytes, a: Alphabet): Bytes {
    Symbols(bin, a) + Repeat(Fill(a), if |bin| % 3 == 0 then 0 else 3 - |bin| % 3)
  }

  // ----- decoding -----

  datatype DecodeError = TooMuchFill | WrongSize | NotInAlphabet

  datatype Decoded = Bin(bin: Bytes) | Error(error: DecodeError)

  predicate AllSymbols(s: Bytes, a: Alphabet) {
    forall i | 0 <= i < |s| :: Index(a, s[i]) != NO_INDEX
  }

  function Group(w: nat, x: nat, y: nat, z: nat): nat {
    w * 0x40000 + x * 0x1000 + y * 0x40 + z
  }

  /** Again on 32-bit words; the decoder adds the third symbol of a short group with an or. */
  lemma GroupBits(w: bv32, x: bv32, y: bv32, z: bv32)
    requires w < 64 && x < 64 && y < 64 && z < 64
    ensures (w << 18) + (x << 12) + (y << 6) + (z << 0) == w * 0x40000 + x * 0x1000 + y * 0x40 + z
    ensures ((w << 18) + (x << 12)) | (y << 6) == w * 0x40000 + x * 0x1000 + y * 0x40
  {
  }

  /** The octets of symbols that have been checked; `|s|` is never one more than a multiple of four. */
  function Octets(s: Bytes, a: Alphabet): Bytes
    requires AllSymbols(s, a) && |s| % 4 != 1
    decreases |s|
  {
    if s == [] then []
    else if |s| == 2 then
      var t := Group(Index(a, s[0]), Index(a, s[1]), 0, 0);
      [Octet(t, 2) as char]
    else if |s| == 3 then
      var t := Group(Index(a, s[0]), Index(a, s[1]), Index(a, s[2]), 0);
      [Octet(t, 2) as char, Octet(t, 1) as char]
    else DecodeBlock(s, a) + Octets(s[4..], a)
  }

  function DecodeBlock(s: Bytes, a: Alphabet): Bytes
    requires AllSymbols(s, a) && |s| >= 4
  {
    var t := Group(Index(a, s[0]), Index(a, s[1]), Index(a, s[2]), Index(a, s[3]));
    [Octet(t, 2) as char, Octet(t, 1) as char, Octet(t, 0) as char]
  }

  function Decode(base: Bytes, a: Alphabet, fills: seq<Bytes>): Decoded
    requires [] !in fills
  {
    var pad := CountPadding(base, fills);
    var symbols := base[..|base| - pad.length];
    if pad.count > 2 then Error(TooMuchFill)
    else if (|symbols| + pad.count) % 4 != 0 then Error(WrongSize)
    else if AllSymbols(symbols, a) then Bin(Octets(symbols, a))
    else Error(NotInAlphabet)
  }

  /** `decode<T>` for an alphabet with a single fill. */
  function DecodeWith(base: Bytes, a: Alphabet): Decoded {
    Decode(base, a, [Fill(a)])
  }

  /** How many fills complete `n` symbols. */
  function FillsNeeded(n: nat): (k: nat)
    ensures k < 4 && (n + k) % 4 == 0
  {
    if n % 4 == 0 then 0 else 4 - n % 4
  }

  function Pad(s: Bytes, a: Alphabet): Bytes {
    s + Repeat(Fill(a), FillsNeeded(|s|))
  }

  /** `base.find(fill)`, with `|s|` for `npos`. */
  function FindFill(s: Bytes, fill: Bytes, from: nat): (r: nat)
    requires from <= |s|
    ensures from <= r <= |s|
    ensures r < |s| ==> OccursAt(s, fill, r)
    decreases |s| - from
  {
    if from == |s| || OccursAt(s, fill, from) then from else FindFill(s, fill, from + 1)
  }

  function Trim(s: Bytes, a: Alphabet): Bytes {
    s[..FindFill(s, Fill(a), 0)]
  }

  // ----- the loops -----

  lemma SymbolsStep(s: Bytes, a: Alphabet)
    requires |s| >= 3
    ensures Symbols(s, a) == EncodeBlock(s[0], s[1], s[2], a) + Symbols(s[3..], a)
  {
  }

  /** `details::encode`. */
  method EncodeLoop(bin: Bytes, a: Alphabet) returns (res: Bytes)
    ensures res == Encode(bin, a)
  {
    hide Symbol, Sextet, Symbols;
    var size := |bin|;
    var fastSize := size - size % 3;
    res := [];
    var i := 0;
    assert bin[0..] == bin;
    while i < fastSize
      invariant i % 3 == 0 && i <= fastSize
      invariant res + Symbols(bin[i..], a) == Symbols(bin, a)
    {
      ghost var s, before := bin[i..], res;
      SymbolsStep(s, a);
      assert s[3..] == bin[i + 3..];
      var triple := Triple(bin[i], bin[i + 1], bin[i + 2]);
      res := res + [Symbol(a, Sextet(triple, 3))];
      res := res + [Symbol(a, Sextet(triple, 2))];
      res := res + [Symbol(a, Sextet(triple, 1))];
      res := res + [Symbol(a, Sextet(triple, 0))];
      assert res == before + EncodeBlock(s[0], s[1], s[2], a);
      i := i + 3;
    }
    var tail := EncodeTail(bin[i..], a);
    res := res + tail;
  }

  /** The end of `details::encode`: the bytes of an incomplete group, and the fill. */
  method EncodeTail(tail: Bytes, a: Alphabet) returns (res: Bytes)
    requires |tail| < 3
    ensures res == Encode(tail, a)
  {
    hide Symbol, Sextet;
    if tail == [] {
      return [];
    }
    var y: byte := if 1 < |tail| then tail[1] else NUL;
    var triple := Triple(tail[0], y, NUL);
    res := [Symbol(a, Sextet(triple, 3))];
    res := res + [Symbol(a, Sextet(triple, 2))];
    if |tail| == 1 {
      assert res == Symbols(tail, a);
      assert Repeat(Fill(a), 1) == Fill(a) + [];
      assert Repeat(Fill(a), 2) == Fill(a) + Repeat(Fill(a), 1);
      res := res + Fill(a) + Fill(a);
    } else {
      res := res + [Symbol(a, Sextet(triple, 1))];
      assert res == Symbols(tail, a);
      assert Repeat(Fill(a), 1) == Fill(a) + [];
      res := res + Fill(a);
    }
  }

  /** `alphabet::index`; an exception is reported as None. */
  method GetSextet(base: Bytes, offset: nat, a: Alphabet) returns (r: Option<nat>)
    requires offset < |base|
    ensures r == if Index(a, base[offset]) == NO_INDEX then None else Some(Index(a, base[offset]))
  {
    var i := Index(a, base[offset]);
    r := if i <= -1 then None else Some(i);
  }

  /** `details::decode`. Every access to `base` is inside it, whatever the input. */
  method DecodeLoop(base: Bytes, a: Alphabet, fills: seq<Bytes>) returns (r: Decoded)
    requires [] !in fills
    ensures r == Decode(base, a, fills)
  {
    hide CountPadding, Octets, AllSymbols;
    var pad := CountPadding(base, fills);
    if pad.count > 2 {
      return Error(TooMuchFill);
    }
    var size := |base| - pad.length;
    if (size + pad.count) % 4 != 0 {
      return Error(WrongSize);
    }
    var octets := DecodeSymbols(base, size, pad.count, a);
    r := if octets.Some? then Bin(octets.value) else Error(NotInAlphabet);
  }

  /** The octets of what may be symbols; none when a byte is outside the alphabet. */
  function OctetsOf(s: Bytes, a: Alphabet): Option<Bytes>
    requires |s| % 4 != 1
  {
    if AllSymbols(s, a) then Some(Octets(s, a)) else None
  }

  function Behind(b: Bytes, r: Option<Bytes>): Option<Bytes> {
    if r.None? then None else Some(b + r.value)
  }

  lemma BehindTwice(a: Bytes, b: Bytes, r: Option<Bytes>)
    ensures Behind(a + b, r) == Behind(a, Behind(b, r))
  {
    if r.Some? {
      Regrouped(a, b, r.value);
    }
  }

  /** The part of `details::decode` behind the size checks. */
  method DecodeSymbols(base: Bytes, size: nat, fillCount: nat, a: Alphabet) returns (r: Option<Bytes>)
    requires size <= |base| && fillCount <= 2 && (size + fillCount) % 4 == 0
    ensures r == if AllSymbols(base[..size], a) then Some(Octets(base[..size], a)) else None
  {
    hide OctetsOf, DecodeBlock, AllSymbols;
    ghost var s := base[..size];
    var res: Bytes := [];
    var fastSize := size - size % 4;
    var i := 0;
    assert s[0..] == s && Behind([], OctetsOf(s, a)) == OctetsOf(s, a) by {
      BehindNothing(OctetsOf(s, a));
    }
    while i < fastSize
      invariant i <= fastSize && (fastSize - i) % 4 == 0 && (size - i) % 4 != 1
      invariant Behind(res, OctetsOf(s[i..], a)) == OctetsOf(s, a)
    {
      FourLess(size - i);
      FourLess(fastSize - i);
      GroupStep(base, size, i, a);
      var block := DecodeGroup(base, i, a);
      if block.None? {
        OctetsOfIs(s, a);
        return None;
      }
      BehindTwice(res, block.value, OctetsOf(s[i + 4..], a));
      res := res + block.value;
      i := i + 4;
    }
    assert s[i..] == base[fastSize..size];
    OctetsOfIs(s, a);
    OctetsOfIs(s[i..], a);
    var tail := DecodeTail(base, fastSize, size, fillCount, a);
    r := if tail.Some? then Some(res + tail.value) else None;
  }

  lemma BehindNothing(r: Option<Bytes>)
    ensures Behind([], r) == r
  {
    assert r.Some? ==> [] + r.value == r.value;
  }

  lemma OctetsOfIs(s: Bytes, a: Alphabet)
    requires |s| % 4 != 1
    ensures OctetsOf(s, a) == if AllSymbols(s, a) then Some(Octets(s, a)) else None
  {
  }

  lemma BlockFirst(t: Bytes, a: Alphabet)
    requires |t| >= 4 && |t| % 4 != 1
    ensures !AllSymbols(t[..4], a) ==> OctetsOf(t, a) == None
    ensures |t[4..]| % 4 != 1
    ensures AllSymbols(t[..4], a) ==> OctetsOf(t, a) == Behind(DecodeBlock(t[..4], a), OctetsOf(t[4..], a))
  {
    hide *;
    FourLess(|t|);
    OctetsStep(t, a);
    OctetsOfIs(t, a);
    OctetsOfIs(t[4..], a);
    if AllSymbols(t[..4], a) {
      BehindIs(DecodeBlock(t[..4], a), OctetsOf(t[4..], a));
    }
  }

  /** What one turn of the loop adds. */
  lemma GroupStep(base: Bytes, size: nat, i: nat, a: Alphabet)
    requires i + 4 <= size <= |base| && (size - i) % 4 != 1 && (size - (i + 4)) % 4 != 1
    ensures var s, block := base[..size], base[i..i + 4];
      OctetsOf(s[i..], a) == if AllSymbols(block, a) then Behind(DecodeBlock(block, a), OctetsOf(s[i + 4..], a)) else None
  {
    hide *;
    var s := base[..size];
    assert s[i..][..4] == base[i..i + 4] && s[i..][4..] == s[i + 4..];
    BlockFirst(s[i..], a);
  }

  lemma BehindIs(b: Bytes, r: Option<Bytes>)
    ensures Behind(b, r) == if r.None? then None else Some(b + r.value)
  {
  }

  lemma FourLess(n: nat)
    requires n >= 4
    ensures (n - 4) % 4 == n % 4
  {
  }

  lemma FourSymbols(s: Bytes, a: Alphabet)
    requires |s| == 4
    ensures AllSymbols(s, a) <==>
      Index(a, s[0]) != NO_INDEX && Index(a, s[1]) != NO_INDEX && Index(a, s[2]) != NO_INDEX && Index(a, s[3]) != NO_INDEX
  {
    hide Index;
  }

  /** One turn of the loop of `details::decode`. */
  method DecodeGroup(base: Bytes, i: nat, a: Alphabet) returns (r: Option<Bytes>)
    requires i + 4 <= |base|
    ensures r == if AllSymbols(base[i..i + 4], a) then Some(DecodeBlock(base[i..i + 4], a)) else None
  {
    hide Index, Octet, AllSymbols, Group;
    ghost var s := base[i..i + 4];
    FourSymbols(s, a);
    var wo := GetSextet(base, i, a);
    var xo := GetSextet(base, i + 1, a);
    var yo := GetSextet(base, i + 2, a);
    var zo := GetSextet(base, i + 3, a);
    assert base[i] == s[0] && base[i + 1] == s[1] && base[i + 2] == s[2] && base[i + 3] == s[3];
    if wo.None? || xo.None? || yo.None? || zo.None? {
      return None;
    }
    var triple := Group(wo.value, xo.value, yo.value, zo.value);
    return Some([Octet(triple, 2) as char, Octet(triple, 1) as char, Octet(triple, 0) as char]);
  }

  /** The end of `details::decode`: the group that the fill completes, if there is one. */
  method DecodeTail(base: Bytes, from: nat, size: nat, fillCount: nat, a: Alphabet) returns (r: Option<Bytes>)
    requires from <= size <= |base| && size - from == (4 - fillCount) % 4 && fillCount <= 2
    ensures r == if AllSymbols(base[from..size], a) then Some(Octets(base[from..size], a)) else None
  {
    hide Index, Octet;
    ghost var tail := base[from..size];
    if fillCount == 0 {
      return Some([]);
    }
    assert base[from] == tail[0] && base[from + 1] == tail[1];
    var wo := GetSextet(base, from, a);
    var xo := GetSextet(base, from + 1, a);
    if wo.None? || xo.None? {
      return None;
    }
    if fillCount == 1 {
      assert base[from + 2] == tail[2];
      var yo := GetSextet(base, from + 2, a);
      if yo.None? {
        return None;
      }
      var triple := Group(wo.value, xo.value, yo.value, 0);
      return Some([Octet(triple, 2) as char, Octet(triple, 1) as char]);
    }
    var triple := Group(wo.value, xo.value, 0, 0);
    return Some([Octet(triple, 2) as char]);
  }

  lemma OctetsStep(s: Bytes, a: Alphabet)
    requires |s| >= 4
    ensures AllSymbols(s, a) <==> AllSymbols(s[..4], a) && AllSymbols(s[4..], a)
    ensures AllSymbols(s, a) && |s| % 4 != 1 ==>
      Octets(s, a) == DecodeBlock(s[..4], a) + Octets(s[4..], a)
  {
    hide Index, Octet;
    if AllSymbols(s[..4], a) {
      forall i | 0 <= i < 4 ensures Index(a, s[i]) != NO_INDEX {
        assert s[i] == s[..4][i];
      }
      AllSymbolsSplit(s, a, 4);
    }
  }

  lemma AllSymbolsSplit(s: Bytes, a: Alphabet, n: nat)
    requires n <= |s| && forall i | 0 <= i < n :: Index(a, s[i]) != NO_INDEX
    ensures AllSymbols(s, a) <==> AllSymbols(s[n..], a)
  {
    if AllSymbols(s[n..], a) {
      forall i | 0 <= i < |s| ensures Index(a, s[i]) != NO_INDEX {
        assert i >= n ==> s[i] == s[n..][i - n];
      }
    }
  }
}
