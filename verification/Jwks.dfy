/** Choosing the key and building the verifier: `configure_verifier_with_jwks`. Every exception ends
    in the same way for the caller, so None stands for all of them. */
module Jwks {
  import opened ByteStrings
  import opened JsonValue
  import opened JsonText
  import opened Token
  import V = Verifier

  /** The signature check of an algorithm that has been given its key. */
  type SignatureCheck = (Bytes, Bytes) -> V.Outcome

  /** OpenSSL, as far as the code asks it for something: PEM text from key components, a loaded
      algorithm from its name and key text, and the tenant that the regular expression finds. */
  datatype Platform = Platform(
    rsaPem: (Bytes, Bytes) -> Option<Bytes>,
    ecPem: (Bytes, Bytes, Bytes) -> Option<Bytes>,
    load: (Bytes, Bytes) -> Option<SignatureCheck>,
    tenant: Bytes -> Option<Bytes>,
    doubles: V.Doubles)

  function Load(env: Platform, name: Bytes, key: Bytes): Option<V.Algorithm> {
    match env.load(name, key)
    case None => None
    case Some(verify) => Some(V.Algorithm(name, verify))
  }

  const RSA_ALGORITHMS: set<Bytes> := {"RS256", "RS384", "RS512", "PS256", "PS384", "PS512"}
  const HMAC_ALGORITHMS: set<Bytes> := {"HS256", "HS384", "HS512"}

  function Text(key: Claims, name: Bytes, env: Platform): Bytes
    requires name in key
  {
    ToStr(key[name], env.doubles.show)
  }

  /** `configure_rsa_key`: a key without `alg` is taken for RS256. */
  function RsaAlgorithm(key: Claims, alg: Bytes, env: Platform): Option<V.Algorithm> {
    if "n" !in key || "e" !in key then None
    else
      match env.rsaPem(Text(key, "n", env), Text(key, "e", env))
      case None => None
      case Some(pem) =>
        if alg == "" then Load(env, "RS256", pem)
        else if alg in RSA_ALGORITHMS then Load(env, alg, pem)
        else None
  }

  /** `configure_ec_key`: algorithm and curve have to go together. */
  function EcAlgorithm(key: Claims, alg: Bytes, env: Platform): Option<V.Algorithm> {
    if "x" !in key || "y" !in key || "crv" !in key then None
    else
      var crv := Text(key, "crv", env);
      match env.ecPem(crv, Text(key, "x", env), Text(key, "y", env))
      case None => None
      case Some(pem) =>
        if (alg == "ES256" && crv == "P-256") || (alg == "ES384" && crv == "P-384") || (alg == "ES512" && crv == "P-521")
        then Load(env, alg, pem)
        else None
  }

  /** `configure_hmac_key`. */
  function HmacAlgorithm(key: Claims, alg: Bytes, env: Platform): Option<V.Algorithm> {
    if "k" !in key then None
    else if alg in HMAC_ALGORITHMS then Load(env, alg, Text(key, "k", env))
    else None
  }

  /** The algorithm that a key with the right `use` and `kid` configures. */
  function KeyAlgorithm(key: Claims, env: Platform): Option<V.Algorithm> {
    if "kty" !in key then None
    else
      var kty := Text(key, "kty", env);
      var alg := if "alg" in key then Text(key, "alg", env) else "";
      if kty == "RSA" then RsaAlgorithm(key, alg, env)
      else if kty == "EC" then EcAlgorithm(key, alg, env)
      else if kty == "oct" then HmacAlgorithm(key, alg, env)
      else None
  }

  /** A key fixes its algorithm: the one in its own `alg`, or RS256 for an RSA key without one. Secret
      (`oct`) keys give HMAC algorithms and no other kind of key does, so no public key can serve as
      an HMAC secret; an elliptic-curve algorithm comes only from a key on its own curve. */
  lemma KeyFixesAlgorithm(key: Claims, env: Platform)
    requires KeyAlgorithm(key, env).Some?
    ensures
      var name := KeyAlgorithm(key, env).value.name;
      "kty" in key && Text(key, "kty", env) in {"RSA", "EC", "oct"} &&
      (if "alg" in key && Text(key, "alg", env) != "" then name == Text(key, "alg", env)
       else name == "RS256" && Text(key, "kty", env) == "RSA") &&
      (name in HMAC_ALGORITHMS <==> Text(key, "kty", env) == "oct") &&
      (name in RSA_ALGORITHMS <==> Text(key, "kty", env) == "RSA") &&
      (name == "ES256" ==> Text(key, "crv", env) == "P-256") &&
      (name == "ES384" ==> Text(key, "crv", env) == "P-384") &&
      (name == "ES512" ==> Text(key, "crv", env) == "P-521")
  {
    hide ToStr;
  }

  /** The key has this member, and it prints as this text. */
  predicate Says(key: Claims, name: Bytes, text: Bytes, env: Platform) {
    name in key && ToStr(key[name], env.doubles.show) == text
  }

  /** An RSA key: the PEM text comes from the modulus and the exponent, in that order; without an `alg`,
      or with an empty one, the algorithm is RS256. */
  ghost predicate RsaGives(key: Claims, env: Platform, alg: V.Algorithm) {
    exists n, e, pem :: Says(key, "n", n, env) && Says(key, "e", e, env) && env.rsaPem(n, e) == Some(pem) &&
      (Says(key, "alg", alg.name, env) || (alg.name == "RS256" && ("alg" !in key || Says(key, "alg", "", env)))) &&
      alg.name in {"RS256", "RS384", "RS512", "PS256", "PS384", "PS512"} && env.load(alg.name, pem) == Some(alg.verify)
  }

  /** An elliptic-curve key: the PEM text comes from the curve and the two coordinates. */
  ghost predicate EcGives(key: Claims, env: Platform, alg: V.Algorithm) {
    exists crv, x, y, pem :: Says(key, "crv", crv, env) && Says(key, "x", x, env) && Says(key, "y", y, env) &&
      env.ecPem(crv, x, y) == Some(pem) && Says(key, "alg", alg.name, env) &&
      (alg.name, crv) in {("ES256", "P-256"), ("ES384", "P-384"), ("ES512", "P-521")} &&
      env.load(alg.name, pem) == Some(alg.verify)
  }

  /** A secret key, used as it is written. */
  ghost predicate SecretGives(key: Claims, env: Platform, alg: V.Algorithm) {
    exists k :: Says(key, "k", k, env) && Says(key, "alg", alg.name, env) &&
      alg.name in {"HS256", "HS384", "HS512"} && env.load(alg.name, k) == Some(alg.verify)
  }

  /** When a key is usable, and which algorithm with which signature check it then gives: exactly one of
      the three cases, by its type. */
  lemma KeyAlgorithmExact(key: Claims, env: Platform, alg: V.Algorithm)
    ensures KeyAlgorithm(key, env) == Some(alg) <==>
      (Says(key, "kty", "RSA", env) && RsaGives(key, env, alg)) ||
      (Says(key, "kty", "EC", env) && EcGives(key, env, alg)) ||
      (Says(key, "kty", "oct", env) && SecretGives(key, env, alg))
  {
    hide ToStr;
    if "kty" in key {
      var declared := if "alg" in key then Text(key, "alg", env) else "";
      if Text(key, "kty", env) == "RSA" {
        RsaExact(key, declared, env, alg);
      } else if Text(key, "kty", env) == "EC" {
        EcExact(key, declared, env, alg);
      } else if Text(key, "kty", env) == "oct" {
        SecretExact(key, declared, env, alg);
      }
    }
  }

  lemma RsaExact(key: Claims, declared: Bytes, env: Platform, alg: V.Algorithm)
    requires declared == if "alg" in key then Text(key, "alg", env) else ""
    ensures RsaAlgorithm(key, declared, env) == Some(alg) <==> RsaGives(key, env, alg)
  {
    hide ToStr;
    if "n" in key && "e" in key {
      assert Says(key, "n", Text(key, "n", env), env) && Says(key, "e", Text(key, "e", env), env);
    }
  }

  lemma EcExact(key: Claims, declared: Bytes, env: Platform, alg: V.Algorithm)
    requires declared == if "alg" in key then Text(key, "alg", env) else ""
    ensures EcAlgorithm(key, declared, env) == Some(alg) <==> EcGives(key, env, alg)
  {
    hide ToStr;
    if "crv" in key && "x" in key && "y" in key {
      assert Says(key, "crv", Text(key, "crv", env), env) && Says(key, "x", Text(key, "x", env), env) &&
        Says(key, "y", Text(key, "y", env), env);
    }
  }

  lemma SecretExact(key: Claims, declared: Bytes, env: Platform, alg: V.Algorithm)
    requires declared == if "alg" in key then Text(key, "alg", env) else ""
    ensures HmacAlgorithm(key, declared, env) == Some(alg) <==> SecretGives(key, env, alg)
  {
    hide ToStr;
    if "k" in key {
      assert Says(key, "k", Text(key, "k", env), env);
    }
  }

  // ----- the loop over the keys -----

  /** What the loop does with one key: go on, stop with an algorithm, or throw. */
  datatype Visit = Skip | Use(alg: V.Algorithm) | Throw

  function VisitKey(key: Value, kid: Bytes, env: Platform): Visit {
    if !key.Obj? || "use" !in key.members then Throw
    else if Text(key.members, "use", env) != "sig" then Skip
    else if "kid" !in key.members then Throw
    else if Text(key.members, "kid", env) != kid then Skip
    else
      match KeyAlgorithm(key.members, env)
      case None => Throw
      case Some(alg) => Use(alg)
  }

  function Visits(keys: seq<Value>, kid: Bytes, env: Platform): Visit {
    if keys == [] then Skip
    else
      match VisitKey(keys[0], kid, env)
      case Skip => Visits(keys[1..], kid, env)
      case other => other
  }

  /** A signing key with the token's key id. */
  predicate Matches(key: Value, kid: Bytes, env: Platform) {
    key.Obj? && "use" in key.members && "kid" in key.members &&
    Text(key.members, "use", env) == "sig" && Text(key.members, "kid", env) == kid
  }

  /** A well-formed key that is passed over. */
  predicate PassedOver(key: Value, kid: Bytes, env: Platform) {
    key.Obj? && "use" in key.members &&
    (Text(key.members, "use", env) != "sig" || ("kid" in key.members && Text(key.members, "kid", env) != kid))
  }

  /** `i` is the first matching key and all before it are well-formed. */
  predicate FirstMatch(keys: seq<Value>, kid: Bytes, env: Platform, i: nat) {
    i < |keys| && Matches(keys[i], kid, env) && forall j | 0 <= j < i :: PassedOver(keys[j], kid, env)
  }

  lemma VisitMeaning(key: Value, kid: Bytes, env: Platform)
    ensures VisitKey(key, kid, env).Skip? <==> PassedOver(key, kid, env)
    ensures VisitKey(key, kid, env).Use? <==> Matches(key, kid, env) && KeyAlgorithm(key.members, env).Some?
    ensures VisitKey(key, kid, env).Use? ==> KeyAlgorithm(key.members, env) == Some(VisitKey(key, kid, env).alg)
  {
  }

  /** The loop ends with the algorithm of the first matching key, or with none when no key matches. */
  lemma {:induction false} VisitsFirstMatch(keys: seq<Value>, kid: Bytes, env: Platform, alg: V.Algorithm)
    ensures Visits(keys, kid, env) == Use(alg) <==>
      exists i: nat :: FirstMatch(keys, kid, env, i) && KeyAlgorithm(keys[i].members, env) == Some(alg)
    ensures Visits(keys, kid, env) == Skip <==> forall j | 0 <= j < |keys| :: PassedOver(keys[j], kid, env)
    decreases |keys|
  {
    hide KeyAlgorithm, Text;
    if keys != [] {
      var tail := keys[1..];
      VisitMeaning(keys[0], kid, env);
      VisitsFirstMatch(tail, kid, env, alg);
      if PassedOver(keys[0], kid, env) {
        forall i: nat ensures FirstMatch(tail, kid, env, i) <==> FirstMatch(keys, kid, env, i + 1) {
          MatchShift(keys, kid, env, i);
        }
        if i: nat :| FirstMatch(tail, kid, env, i) && KeyAlgorithm(tail[i].members, env) == Some(alg) {
          assert FirstMatch(keys, kid, env, i + 1) && keys[i + 1] == tail[i];
        }
        if i: nat :| FirstMatch(keys, kid, env, i) && KeyAlgorithm(keys[i].members, env) == Some(alg) {
          assert i != 0;
          assert FirstMatch(tail, kid, env, i - 1) && keys[i] == tail[i - 1];
        }
        forall j | 0 <= j < |tail| ensures tail[j] == keys[j + 1] {
        }
      } else if Matches(keys[0], kid, env) {
        assert FirstMatch(keys, kid, env, 0);
      }
    }
  }

  lemma MatchShift(keys: seq<Value>, kid: Bytes, env: Platform, i: nat)
    requires keys != [] && PassedOver(keys[0], kid, env)
    ensures FirstMatch(keys[1..], kid, env, i) <==> FirstMatch(keys, kid, env, i + 1)
  {
    hide PassedOver, Matches;
    var tail := keys[1..];
    if FirstMatch(tail, kid, env, i) {
      forall j | 0 <= j < i + 1 ensures PassedOver(keys[j], kid, env) {
        if j > 0 {
          assert tail[j - 1] == keys[j];
        }
      }
    }
    if FirstMatch(keys, kid, env, i + 1) {
      forall j | 0 <= j < i ensures PassedOver(tail[j], kid, env) {
        assert tail[j] == keys[j + 1];
      }
    }
  }

  /** Keys behind the first matching one have no influence, well-formed or not. */
  lemma {:induction false} LaterKeysIrrelevant(keys: seq<Value>, others: seq<Value>, kid: Bytes, env: Platform)
    requires Visits(keys, kid, env) != Skip
    ensures Visits(keys + others, kid, env) == Visits(keys, kid, env)
    decreases |keys|
  {
    assert (keys + others)[0] == keys[0] && (keys + others)[1..] == keys[1..] + others;
    if VisitKey(keys[0], kid, env).Skip? {
      LaterKeysIrrelevant(keys[1..], others, kid, env);
    }
  }

  // ----- the issuer -----

  predicate IssuerIsAzure(issuer: Bytes) {
    Contains(issuer, "login.microsoftonline.com") || Contains(issuer, "sts.windows.net")
  }

  /** The `iss` value that tokens have to carry; None when no tenant is found in an Azure issuer. */
  function ExpectedIssuer(issuer: Bytes, env: Platform): Option<Bytes> {
    if !IssuerIsAzure(issuer) then Some(issuer)
    else
      match env.tenant(issuer)
      case None => None
      case Some(tenant) =>
        Some(if Contains(issuer, "login.microsoftonline.com") then "https://sts.windows.net/" + tenant + "/" else issuer)
  }

  lemma ContainsExact(hay: Bytes, needle: Bytes)
    ensures Contains(hay, needle) <==> exists a: Bytes, b: Bytes :: hay == a + needle + b
  {
    if i: int :| 0 <= i <= |hay| && OccursAt(hay, needle, i) {
      assert hay == hay[..i] + needle + hay[i + |needle|..];
    }
    if a: Bytes, b: Bytes :| hay == a + needle + b {
      assert OccursAt(hay, needle, |a|);
    }
  }

  /** Which issuer the tokens have to name. An issuer that mentions neither host of Azure has to be
      named itself. One that does needs a tenant: with the login host, the tenant's page on the other
      host is expected; without, again the issuer itself. */
  lemma ExpectedIssuerExact(issuer: Bytes, env: Platform)
    ensures
      var login := exists a: Bytes, b: Bytes :: issuer == a + "login.microsoftonline.com" + b;
      var sts := exists a: Bytes, b: Bytes :: issuer == a + "sts.windows.net" + b;
      (IssuerIsAzure(issuer) <==> login || sts) &&
      (!login && !sts ==> ExpectedIssuer(issuer, env) == Some(issuer)) &&
      (login || sts ==> (ExpectedIssuer(issuer, env) == None <==> env.tenant(issuer) == None)) &&
      (forall tenant: Bytes | login && env.tenant(issuer) == Some(tenant) ::
        ExpectedIssuer(issuer, env) == Some("https://sts.windows.net/" + tenant + "/")) &&
      (!login && sts && env.tenant(issuer).Some? ==> ExpectedIssuer(issuer, env) == Some(issuer))
  {
    ContainsExact(issuer, "login.microsoftonline.com");
    ContainsExact(issuer, "sts.windows.net");
    hide Contains;
  }

  const INFO_END: Bytes := "/.well-known/openid-configuration"

  /** `issuer_info_url`. */
  function IssuerInfoUrl(url: Bytes): Bytes {
    if |url| >= |INFO_END| && url[|url| - |INFO_END|..] == INFO_END then url else url + INFO_END
  }

  /** Appending the well-known path is idempotent. */
  lemma InfoUrlIdempotent(url: Bytes)
    ensures IssuerInfoUrl(IssuerInfoUrl(url)) == IssuerInfoUrl(url)
  {
    assert (url + INFO_END)[|url|..] == INFO_END;
  }

  /** The URL with the well-known path, once: a URL that ends in it is kept, any other gets it. */
  lemma InfoUrlExact(url: Bytes)
    ensures
      var path: Bytes := "/.well-known/openid-configuration";
      if exists base: Bytes :: url == base + path then IssuerInfoUrl(url) == url
      else IssuerInfoUrl(url) == url + path
  {
    var path: Bytes := "/.well-known/openid-configuration";
    if base: Bytes :| url == base + path {
      assert url[|base|..] == path;
    }
    if |url| >= |path| && url[|url| - |path|..] == path {
      assert url == url[..|url| - |path|] + path;
    }
  }

  // ----- the verifier -----

  function KeysOf(jwks: Value): Option<seq<Value>> {
    if jwks.Obj? && "keys" in jwks.members && jwks.members["keys"].Arr? then Some(jwks.members["keys"].items) else None
  }

  /** The verifier's configuration, or None for an exception. */
  function ConfigureVerifier(issuer: Bytes, jwks: Value, kid: Bytes, env: Platform): Option<V.Config> {
    match ExpectedIssuer(issuer, env)
    case None => None
    case Some(iss) =>
      match KeysOf(jwks)
      case None => None
      case Some(keys) =>
        var base := V.Configure(V.INITIAL, V.WithIssuer(iss));
        match Visits(keys, kid, env)
        case Throw => None
        case Skip => Some(base)
        case Use(alg) => Some(V.Configure(base, V.AllowAlgorithm(alg)))
  }

  /** `configure_verifier_with_jwks`. */
  method ConfigureVerifierWithJwks(issuer: Bytes, jwks: Value, kid: Bytes, env: Platform) returns (ok: bool, verifier: V.Verifier)
    ensures fresh(verifier)
    ensures ok == ConfigureVerifier(issuer, jwks, kid, env).Some?
    ensures ok ==> verifier.View() == ConfigureVerifier(issuer, jwks, kid, env).value
  {
    verifier := new V.Verifier();
    var iss := ExpectedIssuer(issuer, env);
    if iss.None? {
      return false, verifier;
    }
    verifier.RequireIssuer(iss.value);
    if !jwks.Obj? || "keys" !in jwks.members || !jwks.members["keys"].Arr? {
      return false, verifier;
    }
    var keys := jwks.members["keys"].items;
    ghost var base := verifier.View();
    assert keys[0..] == keys;
    for i := 0 to |keys|
      invariant verifier.View() == base
      invariant Visits(keys[i..], kid, env) == Visits(keys, kid, env)
    {
      assert keys[i..][0] == keys[i] && keys[i..][1..] == keys[i + 1..];
      if !keys[i].Obj? || "use" !in keys[i].members {
        return false, verifier;
      }
      var key := keys[i].members;
      if Text(key, "use", env) != "sig" {
        continue;
      }
      if "kid" !in key {
        return false, verifier;
      }
      if Text(key, "kid", env) != kid {
        continue;
      }
      var alg := KeyAlgorithm(key, env);
      if alg.None? {
        return false, verifier;
      }
      verifier.Allow(alg.value);
      return true, verifier;
    }
    return true, verifier;
  }
}
