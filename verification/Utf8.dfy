/** UTF-8 as section 3 of RFC 3629 defines it: the reference the escape decoder is held to. */
module Utf8 {
  import opened ByteStrings

  /** A Unicode scalar value: any code point that is not a surrogate. */
  predicate IsScalar(u: int) {
    0 <= u < 0xd800 || 0xe000 <= u <= 0x10ffff
  }

  predicate IsHighSurrogate(u: int) {
    0xd800 <= u < 0xdc00
  }

  predicate IsLowSurrogate(u: int) {
    0xdc00 <= u < 0xe000
  }

  /** A continuation byte, `10xxxxxx`. */
  predicate IsTail(b: byte) {
    0x80 <= b as int <= 0xbf
  }

  /** The grammar of section 4 of RFC 3629: one well-formed character. */
  predicate WellFormed(b: Bytes) {
    (|b| == 1 && b[0] as int <= 0x7f) ||
    (|b| == 2 && 0xc2 <= b[0] as int <= 0xdf && IsTail(b[1])) ||
    (|b| == 3 && IsTail(b[1]) && IsTail(b[2]) &&
     ((b[0] as int == 0xe0 && 0xa0 <= b[1] as int) ||
      (0xe1 <= b[0] as int <= 0xec) ||
      (b[0] as int == 0xed && b[1] as int <= 0x9f) ||
      (0xee <= b[0] as int <= 0xef))) ||
    (|b| == 4 && IsTail(b[1]) && IsTail(b[2]) && IsTail(b[3]) &&
     ((b[0] as int == 0xf0 && 0x90 <= b[1] as int) ||
      (0xf1 <= b[0] as int <= 0xf3) ||
      (b[0] as int == 0xf4 && b[1] as int <= 0x8f)))
  }

  /** The number a character's payload bits spell. */
  function CodeOf(b: Bytes): int
    requires WellFormed(b)
  {
    if |b| == 1 then b[0] as int
    else if |b| == 2 then (b[0] as int - 0xc0) * 64 + (b[1] as int - 0x80)
    else if |b| == 3 then (b[0] as int - 0xe0) * 4096 + (b[1] as int - 0x80) * 64 + (b[2] as int - 0x80)
    else
      (b[0] as int - 0xf0) * 262144 + (b[1] as int - 0x80) * 4096 + (b[2] as int - 0x80) * 64
      + (b[3] as int - 0x80)
  }

  /** The bytes `_parse_codepoint` appends for `u`. The operands of its `|` share no bit, so each
      is written as a sum; `BitForms` below checks that on machine words. */
  function Encode(u: int): Bytes
    requires 0 <= u <= 0x10ffff
  {
    if u < 0x80 then [u as char]
    else if u < 0x800 then [(0xc0 + u / 64) as char, (0x80 + u % 64) as char]
    else if u < 0x10000 then
      [(0xe0 + u / 4096) as char, (0x80 + u / 64 % 64) as char, (0x80 + u % 64) as char]
    else
      [(0xf0 + u / 262144) as char, (0x80 + u / 4096 % 64) as char, (0x80 + u / 64 % 64) as char,
       (0x80 + u % 64) as char]
  }

  /** The shifts, masks and ors of the source, on 32-bit words, are those quotients and sums. */
  lemma BitForms(u: bv32)
    requires u <= 0x10ffff
    ensures u < 0x800 ==> (0xc0 | (u >> 6)) == 0xc0 + u / 64
    ensures u < 0x10000 ==> (0xe0 | (u >> 12)) == 0xe0 + u / 4096
    ensures (0xf0 | (u >> 18)) == 0xf0 + u / 262144
    ensures (0x80 | ((u >> 12) & 0x3f)) == 0x80 + u / 4096 % 64
    ensures (0x80 | ((u >> 6) & 0x3f)) == 0x80 + u / 64 % 64
    ensures (0x80 | (u & 0x3f)) == 0x80 + u % 64
  {
  }

  lemma DividedTwice(u: nat)
    ensures u / 4096 == u / 64 / 64 && u / 262144 == u / 64 / 64 / 64
  {
  }

  /** Every scalar value is encoded by a well-formed character that spells it ... */
  lemma EncodeCorrect(u: int)
    requires IsScalar(u)
    ensures WellFormed(Encode(u)) && CodeOf(Encode(u)) == u
  {
    DividedTwice(u);
    var q := u / 64;
    var p := q / 64;
    assert u == q * 64 + u % 64 && q == p * 64 + q % 64 && p == p / 64 * 64 + p % 64;
  }

  lemma Digits(z: nat, y: nat, x: nat, w: nat)
    requires y < 64 && x < 64 && w < 64
    ensures var u := z * 262144 + y * 4096 + x * 64 + w;
      u / 262144 == z && u / 4096 % 64 == y && u / 64 % 64 == x && u % 64 == w
  {
    var u := z * 262144 + y * 4096 + x * 64 + w;
    assert u / 64 == z * 4096 + y * 64 + x;
    assert u / 4096 == z * 64 + y;
  }

  lemma CodeIsScalar(b: Bytes)
    requires WellFormed(b)
    ensures var u := CodeOf(b);
      IsScalar(u) &&
      |b| == if u < 0x80 then 1 else if u < 0x800 then 2 else if u < 0x10000 then 3 else 4
  {
  }

  /** ... and by no other one: well-formed UTF-8 has a single spelling per scalar value. */
  lemma EncodeUnique(b: Bytes)
    requires WellFormed(b)
    ensures IsScalar(CodeOf(b)) && Encode(CodeOf(b)) == b
  {
    hide IsScalar;
    CodeIsScalar(b);
    if |b| == 2 {
      Digits(0, 0, b[0] as int - 0xc0, b[1] as int - 0x80);
    } else if |b| == 3 {
      Digits(0, b[0] as int - 0xe0, b[1] as int - 0x80, b[2] as int - 0x80);
    } else if |b| == 4 {
      Digits(b[0] as int - 0xf0, b[1] as int - 0x80, b[2] as int - 0x80, b[3] as int - 0x80);
    }
  }

  /** The scalar value of a surrogate pair. */
  function Combine(high: int, low: int): int {
    (high - 0xd800) * 0x400 + (low - 0xdc00) + 0x10000
  }

  /** The shift, mask and or of the source, on 32-bit words, give that sum. */
  lemma CombineBits(high: bv32, low: bv32)
    requires 0xd800 <= high < 0xdc00 && 0xdc00 <= low < 0xe000
    ensures (((high - 0xd800) << 10) | ((low - 0xdc00) & 0x3ff)) + 0x10000
         == (high - 0xd800) * 0x400 + (low - 0xdc00) + 0x10000
  {
  }

  function HighOf(u: int): int {
    0xd800 + (u - 0x10000) / 0x400
  }

  function LowOf(u: int): int {
    0xdc00 + (u - 0x10000) % 0x400
  }

  /** Surrogate pairs and the scalar values from 0x10000 up correspond one to one. */
  lemma SurrogatePairsCover(u: int)
    requires 0x10000 <= u <= 0x10ffff
    ensures IsHighSurrogate(HighOf(u)) && IsLowSurrogate(LowOf(u))
    ensures Combine(HighOf(u), LowOf(u)) == u
  {
    var x := u - 0x10000;
    assert x == x / 0x400 * 0x400 + x % 0x400;
  }

  lemma SurrogatePairsInjective(high: int, low: int)
    requires IsHighSurrogate(high) && IsLowSurrogate(low)
    ensures 0x10000 <= Combine(high, low) <= 0x10ffff
    ensures HighOf(Combine(high, low)) == high && LowOf(Combine(high, low)) == low
  {
    var x := Combine(high, low) - 0x10000;
    assert x / 0x400 == high - 0xd800;
  }
}
