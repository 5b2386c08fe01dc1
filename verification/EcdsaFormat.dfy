/** The fixed-width r/s format of ECDSA signatures (section 3.4 of RFC 7518). A DER signature is
    taken as the pair of numbers it encodes. */
module EcdsaFormat {
  import opened ByteStrings

  datatype Signature = Signature(r: nat, s: nat)

  /** The fixed format, or the exception "bignum size exceeded expected length". */
  datatype Fixed = Raw(bytes: Bytes) | SizeExceeded

  /** `bn2raw`: as many bytes as the number needs, the most significant first; none for zero. */
  function Bn2Raw(n: nat): Bytes {
    if n == 0 then [] else Bn2Raw(n / 256) + [(n % 256) as char]
  }

  /** `raw2bn`. */
  function Raw2Bn(raw: Bytes): nat {
    if raw == [] then 0 else Raw2Bn(raw[..|raw| - 1]) * 256 + raw[|raw| - 1] as int
  }

  function Zeros(n: nat): Bytes {
    seq(n, _ => NUL)
  }

  /** `der_to_p1363_signature` for the algorithm's `signature_length`. */
  function DerToP1363(sig: Signature, length: nat): Fixed {
    var half := length / 2;
    var rr, rs := Bn2Raw(sig.r), Bn2Raw(sig.s);
    if |rr| > half || |rs| > half then SizeExceeded
    else Raw(Zeros(half - |rr|) + rr + (Zeros(half - |rs|) + rs))
  }

  /** `p1363_to_der_signature`: the two halves, whatever the length. */
  function P1363ToDer(raw: Bytes): Signature {
    Signature(Raw2Bn(raw[..|raw| / 2]), Raw2Bn(raw[|raw| / 2..]))
  }

  function Pow256(k: nat): nat {
    if k == 0 then 1 else 256 * Pow256(k - 1)
  }

  lemma {:induction false} RawOfBn(n: nat)
    ensures Raw2Bn(Bn2Raw(n)) == n
  {
    if n > 0 {
      RawOfBn(n / 256);
      var raw := Bn2Raw(n);
      assert raw[..|raw| - 1] == Bn2Raw(n / 256);
    }
  }

  /** The first byte counts most. */
  lemma {:induction false} BigEndian(b: byte, rest: Bytes)
    ensures Raw2Bn([b] + rest) == b as int * Pow256(|rest|) + Raw2Bn(rest)
    decreases |rest|
  {
    var raw := [b] + rest;
    if rest == [] {
      assert raw[..0] == [];
      assert Raw2Bn(raw) == Raw2Bn(raw[..0]) * 256 + b as int;
    } else {
      var n := |rest| - 1;
      BigEndian(b, rest[..n]);
      assert raw[..|raw| - 1] == [b] + rest[..n];
      assert Pow256(|rest|) == 256 * Pow256(n);
      Distribute(b as int, Pow256(n), Raw2Bn(rest[..n]));
    }
  }

  lemma Distribute(a: nat, p: nat, x: nat)
    ensures (a * p + x) * 256 == a * (256 * p) + x * 256
  {
  }

  /** The first half is `r`, the second is `s`. */
  lemma HalvesInOrder(x: Bytes, y: Bytes)
    requires |x| == |y|
    ensures P1363ToDer(x + y) == Signature(Raw2Bn(x), Raw2Bn(y))
  {
    hide Raw2Bn;
    assert (x + y)[..|x|] == x && (x + y)[|x|..] == y;
  }

  /** A number fits into `k` bytes exactly when it is below 256 to the `k`. */
  lemma {:induction false} FitsIff(n: nat, k: nat)
    ensures |Bn2Raw(n)| <= k <==> n < Pow256(k)
  {
    if n > 0 && k > 0 {
      FitsIff(n / 256, k - 1);
      assert n == n / 256 * 256 + n % 256;
    } else if n == 0 {
      PowPositive(k);
    }
  }

  lemma {:induction false} PowPositive(k: nat)
    ensures Pow256(k) > 0
  {
    if k > 0 {
      PowPositive(k - 1);
    }
  }

  lemma {:induction false} LeadingZeros(n: nat, raw: Bytes)
    ensures Raw2Bn(Zeros(n) + raw) == Raw2Bn(raw)
    decreases n + |raw|
  {
    var whole := Zeros(n) + raw;
    if raw != [] {
      LeadingZeros(n, raw[..|raw| - 1]);
      assert whole[..|whole| - 1] == Zeros(n) + raw[..|raw| - 1];
    } else if n > 0 {
      LeadingZeros(n - 1, []);
      assert whole[..|whole| - 1] == Zeros(n - 1) + [];
    }
  }

  /** One half: padded to its width it reads back. */
  lemma HalfRoundTrip(n: nat, half: nat)
    requires |Bn2Raw(n)| <= half
    ensures var padded := Zeros(half - |Bn2Raw(n)|) + Bn2Raw(n);
      |padded| == half && Raw2Bn(padded) == n
  {
    hide Bn2Raw, Raw2Bn;
    LeadingZeros(half - |Bn2Raw(n)|, Bn2Raw(n));
    RawOfBn(n);
  }

  /** The conversion fails exactly when a number does not fit its half; otherwise the result has
      twice that many bytes, and converting back gives the same pair. */
  lemma FixedRoundTrip(sig: Signature, length: nat)
    ensures DerToP1363(sig, length).SizeExceeded? <==> sig.r >= Pow256(length / 2) || sig.s >= Pow256(length / 2)
    ensures DerToP1363(sig, length).Raw? ==>
      |DerToP1363(sig, length).bytes| == 2 * (length / 2) && P1363ToDer(DerToP1363(sig, length).bytes) == sig
  {
    hide Bn2Raw, Raw2Bn, Pow256, Zeros;
    var half := length / 2;
    FitsIff(sig.r, half);
    FitsIff(sig.s, half);
    if DerToP1363(sig, length).Raw? {
      HalfRoundTrip(sig.r, half);
      HalfRoundTrip(sig.s, half);
      var first, second := Zeros(half - |Bn2Raw(sig.r)|) + Bn2Raw(sig.r), Zeros(half - |Bn2Raw(sig.s)|) + Bn2Raw(sig.s);
      assert (first + second)[..half] == first && (first + second)[half..] == second;
    }
  }

  /** Stripped of its leading zeros, a byte string is what its number prints as. */
  lemma {:induction false} BnOfRaw(raw: Bytes)
    ensures |Bn2Raw(Raw2Bn(raw))| <= |raw|
    ensures Zeros(|raw| - |Bn2Raw(Raw2Bn(raw))|) + Bn2Raw(Raw2Bn(raw)) == raw
    decreases |raw|
  {
    if raw != [] {
      var init, last := raw[..|raw| - 1], raw[|raw| - 1];
      var n := Raw2Bn(init);
      BnOfRaw(init);
      var m := n * 256 + last as int;
      assert m / 256 == n && m % 256 == last as int;
      assert raw == init + [last];
      if m == 0 {
        assert last == NUL && n == 0;
        assert Zeros(|init|) == init;
        assert Zeros(|raw|) == Zeros(|init|) + [NUL];
      } else {
        assert Bn2Raw(m) == Bn2Raw(n) + [last];
        assert Zeros(|init| - |Bn2Raw(n)|) + (Bn2Raw(n) + [last]) == init + [last];
      }
    }
  }

  /** Conversely, every byte string of the right even length is the fixed form of the pair it is read
      as: `verify` sees the signature that was sent and no other. */
  lemma FixedIsExact(raw: Bytes, length: nat)
    requires |raw| == length && length % 2 == 0
    ensures DerToP1363(P1363ToDer(raw), length) == Raw(raw)
  {
    var half := length / 2;
    BnOfRaw(raw[..half]);
    BnOfRaw(raw[half..]);
    assert raw == raw[..half] + raw[half..];
  }
}
