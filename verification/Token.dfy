/** Tokens in JWS compact form (section 7.1 of RFC 7515): `builder::sign` and `decoded_jwt`. */
module Token {
  import opened ByteStrings
  import opened JsonValue
  import JsonGrammar
  import JsonText
  import JsonTheorems
  import JsonPrinter
  import JsonParser
  import B = Base64Code
  import Base64Laws
  import Base64Meaning

  type Claims = map<Bytes, Value>

  /** A signing algorithm, reduced to its name and what it computes; None is an error code. */
  datatype Signer = Signer(name: Bytes, sign: Bytes -> Option<Bytes>)

  datatype TokenError = InvalidToken | BadBase64 | InvalidJson | BadCast

  datatype DecodedJwt = DecodedJwt(
    token: Bytes,
    header: Bytes, headerBase64: Bytes,
    payload: Bytes, payloadBase64: Bytes,
    signature: Bytes, signatureBase64: Bytes,
    headerClaims: Claims, payloadClaims: Claims)

  datatype DecodeResult = Jwt(jwt: DecodedJwt) | Failed(error: TokenError)

  // ----- signing -----

  /** The encoder `sign` passes on: base64url without the fill. */
  function EncodeSegment(data: Bytes): Bytes {
    B.Trim(B.Encode(data, B.Base64Url), B.Base64Url)
  }

  /** `alg` is filled in when the caller has not set it. */
  function SignedHeader(header: Claims, name: Bytes): Claims {
    if "alg" in header then header else header["alg" := Str(name)]
  }

  function ClaimsText(claims: Claims, fmt: DoubleFormat): Bytes {
    JsonText.Serialize(Obj(claims), JsonText.COMPACT, fmt)
  }

  /** The text that is signed. */
  function SigningInput(header: Claims, payload: Claims, name: Bytes, fmt: DoubleFormat): Bytes {
    EncodeSegment(ClaimsText(SignedHeader(header, name), fmt)) + ['.'] + EncodeSegment(ClaimsText(payload, fmt))
  }

  function SignedToken(header: Claims, payload: Claims, signer: Signer, fmt: DoubleFormat): Option<Bytes> {
    var input := SigningInput(header, payload, signer.name, fmt);
    match signer.sign(input)
    case None => None
    case Some(signature) => Some(input + ['.'] + EncodeSegment(signature))
  }

  class Builder {
    var headerClaims: Claims
    var payloadClaims: Claims

    constructor ()
      ensures headerClaims == map[] && payloadClaims == map[]
    {
      headerClaims, payloadClaims := map[], map[];
    }

    method SetHeaderClaim(id: Bytes, c: Value)
      modifies this
      ensures headerClaims == old(headerClaims)[id := c] && payloadClaims == old(payloadClaims)
    {
      headerClaims := headerClaims[id := c];
    }

    method SetPayloadClaim(id: Bytes, c: Value)
      modifies this
      ensures payloadClaims == old(payloadClaims)[id := c] && headerClaims == old(headerClaims)
    {
      payloadClaims := payloadClaims[id := c];
    }

    /** `sign`. The builder itself is left as it was. */
    method Sign(signer: Signer, fmt: DoubleFormat) returns (r: Option<Bytes>)
      ensures r == SignedToken(headerClaims, payloadClaims, signer, fmt)
    {
      var header := headerClaims;
      if "alg" !in headerClaims {
        header := header["alg" := Str(signer.name)];
      }
      var headerText := JsonPrinter.Print(Obj(header), JsonText.COMPACT, fmt, []);
      var payloadText := JsonPrinter.Print(Obj(payloadClaims), JsonText.COMPACT, fmt, []);
      assert headerText == ClaimsText(header, fmt) && payloadText == ClaimsText(payloadClaims, fmt);
      var headerCode := B.EncodeLoop(headerText, B.Base64Url);
      var payloadCode := B.EncodeLoop(payloadText, B.Base64Url);
      var input := B.Trim(headerCode, B.Base64Url) + ['.'] + B.Trim(payloadCode, B.Base64Url);
      var signature := signer.sign(input);
      if signature.None? {
        return None;
      }
      var signatureCode := B.EncodeLoop(signature.value, B.Base64Url);
      return Some(input + ['.'] + B.Trim(signatureCode, B.Base64Url));
    }
  }

  // ----- decoding -----

  function DecodeSegment(s: Bytes): B.Decoded {
    B.DecodeWith(B.Pad(s, B.Base64Url), B.Base64Url)
  }

  /** `map_of_claims::parse_claims`. */
  function ParseClaims(text: Bytes): (Claims, Option<TokenError>) {
    match JsonGrammar.Parse(text)
    case None => (map[], Some(InvalidJson))
    case Some(v) => if v.Obj? then (v.members, None) else (map[], Some(BadCast))
  }

  /** The constructor of `decoded_jwt` behind the search for the two dots. */
  function DecodeParts(token: Bytes, h: Bytes, p: Bytes, s: Bytes): DecodeResult {
    var header, payload, signature := DecodeSegment(h), DecodeSegment(p), DecodeSegment(s);
    if header.Error? || payload.Error? || signature.Error? then Failed(BadBase64)
    else
      var headerClaims := ParseClaims(header.bin);
      var payloadClaims := ParseClaims(payload.bin);
      if headerClaims.1.Some? then Failed(headerClaims.1.value)
      else if payloadClaims.1.Some? then Failed(payloadClaims.1.value)
      else Jwt(DecodedJwt(token, header.bin, h, payload.bin, p, signature.bin, s, headerClaims.0, payloadClaims.0))
  }

  function Decode(token: Bytes): DecodeResult {
    match Find(token, '.', 0)
    case None => Failed(InvalidToken)
    case Some(i) =>
      match Find(token, '.', i + 1)
      case None => Failed(InvalidToken)
      case Some(j) => DecodeParts(token, token[..i], token[i + 1..j], token[j + 1..])
  }

  /** What `verify` checks the signature against. */
  function VerifiedText(jwt: DecodedJwt): Bytes {
    jwt.headerBase64 + ['.'] + jwt.payloadBase64
  }

  // ----- laws -----

  lemma DotIsNoSymbol(s: Bytes)
    requires B.AllSymbols(s, B.Base64Url)
    ensures '.' !in s
  {
  }

  lemma {:induction false} FindDot(a: Bytes, b: Bytes, c: Bytes, from: nat)
    requires '.' !in a && |b| <= from <= |b| + |a|
    ensures Find(b + a + ['.'] + c, '.', from) == Some(|b| + |a|)
    decreases |b| + |a| - from
  {
    var s := b + a + ['.'] + c;
    if from < |b| + |a| {
      assert s[from] == a[from - |b|];
      FindDot(a, b, c, from + 1);
    } else {
      assert s[from] == '.';
    }
  }

  lemma DecodeJoined(h: Bytes, p: Bytes, s: Bytes)
    requires '.' !in h && '.' !in p
    ensures var token := h + ['.'] + p + ['.'] + s;
      Decode(token) == DecodeParts(token, h, p, s)
  {
    hide Find, DecodeParts;
    var token := h + ['.'] + p + ['.'] + s;
    assert token == [] + h + ['.'] + (p + ['.'] + s);
    FindDot(h, [], p + ['.'] + s, 0);
    assert token == (h + ['.']) + p + ['.'] + s;
    FindDot(p, h + ['.'], s, |h| + 1);
    var i, j := |h|, |h| + 1 + |p|;
    assert token[..i] == h && token[i + 1..j] == p && token[j + 1..] == s;
  }

  lemma SegmentRoundTrip(data: Bytes)
    ensures '.' !in EncodeSegment(data)
    ensures DecodeSegment(EncodeSegment(data)) == B.Bin(data)
  {
    hide *;
    Base64Laws.TrimEncode(data, B.Base64Url);
    Base64Laws.SymbolsRoundTrip(data, B.Base64Url);
    Base64Laws.TrimmedRoundTrip(data, B.Base64Url);
    SegmentIs(data);
    DotIsNoSymbol(B.Symbols(data, B.Base64Url));
  }

  lemma SegmentIs(data: Bytes)
    ensures EncodeSegment(data) == B.Trim(B.Encode(data, B.Base64Url), B.Base64Url)
    ensures forall s :: DecodeSegment(s) == B.DecodeWith(B.Pad(s, B.Base64Url), B.Base64Url)
  {
  }

  lemma ClaimsRoundTrip(claims: Claims, fmt: DoubleFormat)
    requires DoubleFree(Obj(claims))
    ensures ParseClaims(ClaimsText(claims, fmt))
         == if FitsDepth(Obj(claims), 100) then (claims, None) else (map[], Some(InvalidJson))
  {
    hide JsonGrammar.Parse, JsonText.Serialize, DoubleFree, FitsDepth;
    JsonTheorems.ParseSerialize(Obj(claims), fmt);
  }

  /** A segment is the bare symbols of base64url: A to Z, a to z, the digits, minus and underscore. */
  lemma SegmentExact(data: Bytes)
    ensures EncodeSegment(data) == B.Symbols(data, B.Base64Url)
    ensures forall i | 0 <= i < |EncodeSegment(data)| :: EncodeSegment(data)[i] in Base64Meaning.Table(B.Base64Url)
  {
    hide B.Symbols, Base64Meaning.Table, B.AllSymbols;
    Base64Laws.TrimEncode(data, B.Base64Url);
    Base64Laws.SymbolsRoundTrip(data, B.Base64Url);
    Base64Meaning.AllInTable(B.Symbols(data, B.Base64Url), B.Base64Url);
  }

  /** What a signed token is: the text of the header with `alg`, which the caller's own value overrides,
      and the text of the payload, each as a segment, in this order with a dot between; that is what is
      signed; and behind another dot the segment of the signature. */
  lemma SignedTokenExact(header: Claims, payload: Claims, signer: Signer, fmt: DoubleFormat)
    ensures
      var full := if "alg" in header then header else header["alg" := Str(signer.name)];
      var h := EncodeSegment(JsonText.Serialize(Obj(full), JsonText.COMPACT, fmt));
      var p := EncodeSegment(JsonText.Serialize(Obj(payload), JsonText.COMPACT, fmt));
      SignedHeader(header, signer.name) == full &&
      SigningInput(header, payload, signer.name, fmt) == h + "." + p &&
      SignedToken(header, payload, signer, fmt) ==
        match signer.sign(h + "." + p)
        case None => None
        case Some(signature) => Some(h + "." + p + "." + EncodeSegment(signature))
  {
    hide EncodeSegment, JsonText.Serialize;
  }

  /** Decoding a signed token gives back the claims of both parts (with `alg` added when it was not
      set) and the signature, and `verify` will look at exactly the text that was signed. The only
      claims that do not come back are those nested deeper than the parser goes. */
  lemma TokenRoundTrip(header: Claims, payload: Claims, signer: Signer, fmt: DoubleFormat)
    requires DoubleFree(Obj(header)) && DoubleFree(Obj(payload))
    ensures
      var input := SigningInput(header, payload, signer.name, fmt);
      var full := if "alg" in header then header else header["alg" := Str(signer.name)];
      match signer.sign(input)
      case None => SignedToken(header, payload, signer, fmt) == None
      case Some(signature) =>
        SignedToken(header, payload, signer, fmt).Some? &&
        var r := Decode(SignedToken(header, payload, signer, fmt).value);
        if FitsDepth(Obj(full), 100) && FitsDepth(Obj(payload), 100)
        then r.Jwt? && r.jwt.headerClaims == full && r.jwt.payloadClaims == payload
          && r.jwt.signature == signature && VerifiedText(r.jwt) == input
        else r == Failed(InvalidJson)
  {
    hide ClaimsText, EncodeSegment, DecodeSegment, ParseClaims, Decode, FitsDepth;
    var input := SigningInput(header, payload, signer.name, fmt);
    var full := SignedHeader(header, signer.name);
    if signer.sign(input).Some? {
      var signature := signer.sign(input).value;
      var h, p, s := EncodeSegment(ClaimsText(full, fmt)), EncodeSegment(ClaimsText(payload, fmt)), EncodeSegment(signature);
      SegmentRoundTrip(ClaimsText(full, fmt));
      SegmentRoundTrip(ClaimsText(payload, fmt));
      SegmentRoundTrip(signature);
      DecodeJoined(h, p, s);
      ClaimsRoundTrip(full, fmt);
      ClaimsRoundTrip(payload, fmt);
    }
  }

  /** The part of `s` that `count_padding` takes off holds no dot. */
  lemma {:induction false} NoDotInFill(s: Bytes, i: nat)
    requires var f := B.Fill(B.Base64Url); |s| - B.CountPadding(s, [f]).length <= i < |s|
    ensures s[i] != '.'
    decreases |s|
  {
    var f := B.Fill(B.Base64Url);
    assert f == "%3d";
    assert B.LastFill(s, [f]).Some?;
    if i < |s| - 3 {
      NoDotInFill(s[..|s| - 3], i);
    } else {
      assert s[i] == s[|s| - 3..][i - (|s| - 3)];
    }
  }

  lemma DecodedHasNoDot(s: Bytes)
    ensures DecodeSegment(s).Bin? ==> '.' !in s
  {
    hide B.CountPadding, B.Octets;
    var padded := B.Pad(s, B.Base64Url);
    var n := |padded| - B.CountPadding(padded, [B.Fill(B.Base64Url)]).length;
    forall i | 0 <= i < |s| && DecodeSegment(s).Bin? ensures s[i] != '.' {
      assert padded[i] == s[i];
      if i < n {
        assert padded[..n][i] == s[i];
      } else {
        NoDotInFill(padded, i);
      }
    }
  }

  /** Every token that decodes is three dot-free segments joined by two dots, with the claims that
      the JSON of the first two spells. */
  lemma AcceptedToken(token: Bytes)
    ensures Decode(token).Jwt? ==>
      var j := Decode(token).jwt;
      token == VerifiedText(j) + ['.'] + j.signatureBase64 &&
      '.' !in j.headerBase64 && '.' !in j.payloadBase64 && '.' !in j.signatureBase64 &&
      DecodeSegment(j.headerBase64) == B.Bin(j.header) && DecodeSegment(j.payloadBase64) == B.Bin(j.payload) &&
      DecodeSegment(j.signatureBase64) == B.Bin(j.signature) &&
      JsonGrammar.Parse(j.header) == Some(Obj(j.headerClaims)) && JsonGrammar.Parse(j.payload) == Some(Obj(j.payloadClaims))
  {
    hide DecodeSegment, JsonGrammar.Parse, Find;
    if Decode(token).Jwt? {
      var i := Find(token, '.', 0).value;
      var j := Find(token, '.', i + 1).value;
      DecodedHasNoDot(token[..i]);
      DecodedHasNoDot(token[i + 1..j]);
      DecodedHasNoDot(token[j + 1..]);
      assert token == token[..i] + ['.'] + token[i + 1..j] + ['.'] + token[j + 1..];
    }
  }

  /** The nine fields, for a token made of these three parts. */
  predicate Spells(j: DecodedJwt, h: Bytes, p: Bytes, s: Bytes) {
    j.token == h + "." + p + "." + s && '.' !in h && '.' !in p && '.' !in s &&
    j.headerBase64 == h && j.payloadBase64 == p && j.signatureBase64 == s &&
    DecodeSegment(h) == B.Bin(j.header) && DecodeSegment(p) == B.Bin(j.payload) && DecodeSegment(s) == B.Bin(j.signature) &&
    JsonGrammar.Parse(j.header) == Some(Obj(j.headerClaims)) && JsonGrammar.Parse(j.payload) == Some(Obj(j.payloadClaims))
  }

  /** Exactly which tokens decode, and to what. */
  lemma DecodeExact(token: Bytes, j: DecodedJwt)
    ensures Decode(token) == Jwt(j) <==> j.token == token && exists h: Bytes, p: Bytes, s: Bytes :: Spells(j, h, p, s)
    ensures Decode(token) == Jwt(j) ==> VerifiedText(j) == j.headerBase64 + "." + j.payloadBase64
  {
    hide DecodeSegment, JsonGrammar.Parse, Find;
    AcceptedToken(token);
    if Decode(token) == Jwt(j) {
      assert j.token == j.headerBase64 + "." + j.payloadBase64 + "." + j.signatureBase64;
      assert Spells(j, j.headerBase64, j.payloadBase64, j.signatureBase64);
    }
    if h: Bytes, p: Bytes, s: Bytes :| j.token == token && Spells(j, h, p, s) {
      DecodeJoined(h, p, s);
      assert token == h + ['.'] + p + ['.'] + s;
    }
  }

  /** Two dots. */
  predicate TwoDots(token: Bytes, i: int, j: int) {
    0 <= i < j < |token| && token[i] == '.' && token[j] == '.'
  }

  /** How the others fail: without two dots; with a segment that is no base64url; with a header, and
      only then a payload, that is no JSON, or is JSON but no object. */
  lemma DecodeFailures(token: Bytes, h: Bytes, p: Bytes, s: Bytes)
    ensures Decode(token) == Failed(InvalidToken) <==> !exists i, j :: TwoDots(token, i, j)
    ensures token == h + "." + p + "." + s && '.' !in h && '.' !in p && !Decode(token).Jwt? ==>
      var header, payload := DecodeSegment(h), DecodeSegment(p);
      Decode(token).error ==
        if header.Error? || payload.Error? || DecodeSegment(s).Error? then BadBase64
        else if JsonGrammar.Parse(header.bin) == None then InvalidJson
        else if !JsonGrammar.Parse(header.bin).value.Obj? then BadCast
        else if JsonGrammar.Parse(payload.bin) == None then InvalidJson
        else BadCast
  {
    hide DecodeSegment, JsonGrammar.Parse;
    TwoDotsFound(token);
    if token == h + "." + p + "." + s && '.' !in h && '.' !in p {
      DecodeJoined(h, p, s);
      assert token == h + ['.'] + p + ['.'] + s;
    }
  }

  lemma DotInside(s: Bytes, from: int, to: int, i: int)
    requires 0 <= from <= i < to <= |s| && s[i] == '.'
    ensures '.' in s[from..to]
  {
    assert s[from..to][i - from] == s[i];
  }

  lemma NoneBefore(s: Bytes, first: int, i: int)
    requires 0 <= first <= |s| && 0 <= i < |s| && s[i] == '.' && '.' !in s[0..first]
    ensures first <= i
  {
    if 0 <= i < first {
      DotInside(s, 0, first, i);
    }
  }

  lemma TwoDotsFound(token: Bytes)
    ensures Decode(token) == Failed(InvalidToken) <==> !exists i, j :: TwoDots(token, i, j)
  {
    hide DecodeSegment, JsonGrammar.Parse;
    var first := Find(token, '.', 0);
    var second := if first.Some? then Find(token, '.', first.value + 1) else None;
    if second.Some? {
      assert TwoDots(token, first.value, second.value);
    } else {
      forall i, j ensures !TwoDots(token, i, j) {
        if TwoDots(token, i, j) {
          BothFound(token, i, j);
        }
      }
    }
  }

  /** The two searches find two dots. */
  lemma BothFound(token: Bytes, i: int, j: int)
    requires TwoDots(token, i, j)
    ensures Find(token, '.', 0).Some? && Find(token, '.', Find(token, '.', 0).value + 1).Some?
  {
    var first := Find(token, '.', 0);
    assert token[0..] == token[0..|token|];
    DotInside(token, 0, |token|, i);
    NoneBefore(token, first.value, i);
    assert token[first.value + 1..] == token[first.value + 1..|token|];
    DotInside(token, first.value + 1, |token|, j);
  }

  /** `decoded_jwt`'s constructor. */
  method DecodeToken(token: Bytes) returns (r: DecodeResult)
    ensures r == Decode(token)
  {
    hide B.Decode, B.Pad, JsonGrammar.Parse;
    var hdrEnd := Find(token, '.', 0);
    if hdrEnd.None? {
      return Failed(InvalidToken);
    }
    var payloadEnd := Find(token, '.', hdrEnd.value + 1);
    if payloadEnd.None? {
      return Failed(InvalidToken);
    }
    var headerBase64 := token[..hdrEnd.value];
    var payloadBase64 := token[hdrEnd.value + 1..payloadEnd.value];
    var signatureBase64 := token[payloadEnd.value + 1..];
    var fills := [B.Fill(B.Base64Url)];
    var header := B.DecodeLoop(B.Pad(headerBase64, B.Base64Url), B.Base64Url, fills);
    if header.Error? {
      return Failed(BadBase64);
    }
    var payload := B.DecodeLoop(B.Pad(payloadBase64, B.Base64Url), B.Base64Url, fills);
    if payload.Error? {
      return Failed(BadBase64);
    }
    var signature := B.DecodeLoop(B.Pad(signatureBase64, B.Base64Url), B.Base64Url, fills);
    if signature.Error? {
      return Failed(BadBase64);
    }
    var headerOk, headerValue := JsonParser.ParseText(header.bin);
    if !headerOk {
      return Failed(InvalidJson);
    }
    if !headerValue.Obj? {
      return Failed(BadCast);
    }
    var payloadOk, payloadValue := JsonParser.ParseText(payload.bin);
    if !payloadOk {
      return Failed(InvalidJson);
    }
    if !payloadValue.Obj? {
      return Failed(BadCast);
    }
    return Jwt(DecodedJwt(token, header.bin, headerBase64, payload.bin, payloadBase64, signature.bin, signatureBase64,
                          headerValue.members, payloadValue.members));
  }
}
