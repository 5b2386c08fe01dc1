/** `validate_token`: from the request to the decision, over every way out. */
module Validator {
  import opened ByteStrings
  import opened JsonValue
  import opened JsonText
  import opened Token
  import opened HttpClient
  import C = HttpCache
  import G = JsonGrammar
  import opened Scopes
  import opened Jwks
  import V = Verifier

  /** What the connection and the settings provide. An empty override counts as not set. */
  datatype Request = Request(token: Bytes, scope: Bytes, issuer: Bytes, discoveryOverride: Bytes, authnField: Bytes)

  /** The outside world: the answers of `get_json` for the two documents, the clock, OpenSSL, and
      whether copying the identity runs out of memory. */
  datatype World = World(
    infoAt: Bytes -> JsonResult, keysAt: Bytes -> JsonResult, now: int, platform: Platform, outOfMemory: bool)

  /** A call of `get_json`: when it reads the cache, what its transfer gives, when it writes the cache. */
  datatype Call = Call(read: int, transfer: Bytes -> Transfer, stored: int)

  /** What one run of `validate_token` meets: whether attaching to the cache succeeds, and its two
      calls. */
  datatype Session = Session(attaches: bool, info: Call, keys: Call, now: int, platform: Platform, outOfMemory: bool)

  function CallSpec(m: C.Contents, attached: bool, url: Bytes, call: Call): (C.Contents, JsonResult) {
    GetJsonSpec(m, attached, url, call.read, call.transfer(url), call.stored)
  }

  /** The world of a run that starts with these cache contents and is not interrupted. */
  function WorldOf(req: Request, m: C.Contents, attached: bool, s: Session): (w: World)
    ensures w.now == s.now && w.platform == s.platform && w.outOfMemory == s.outOfMemory
  {
    World.World(
      url => CallSpec(m, attached, url, s.info).1,
      url => CallSpec(CallSpec(m, attached, DiscoveryUrl(req), s.info).0, attached, url, s.keys).1,
      s.now, s.platform, s.outOfMemory)
  }

  /** Where the discovery document says the keys are. */
  function KeySetUri(info: Value, fmt: DoubleFormat): Option<Bytes> {
    if !info.Obj? || "jwks_uri" !in info.members || ToStr(info.members["jwks_uri"], fmt) == "" then None
    else Some(ToStr(info.members["jwks_uri"], fmt))
  }

  /** What such a run leaves in the cache. */
  function CacheAfter(req: Request, m: C.Contents, attached: bool, s: Session): C.Contents {
    var (m', info) := CallSpec(m, attached, DiscoveryUrl(req), s.info);
    var uri := if info.RequestFailed? then None else KeySetUri(info.value, s.platform.doubles.show);
    if uri.None? then m' else CallSpec(m', attached, uri.value, s.keys).0
  }

  /** The returned value and the two fields of the result. */
  datatype Verdict = Verdict(returned: bool, authnId: Option<Bytes>, authorized: bool)

  const DENIED: Verdict := Verdict(false, None, false)

  function DiscoveryUrl(req: Request): Bytes {
    IssuerInfoUrl(if req.discoveryOverride != "" then req.discoveryOverride else req.issuer)
  }

  /** `get_json` of the discovery document, then of the key set it names. */
  function FetchKeys(req: Request, w: World): Option<Value> {
    match w.infoAt(DiscoveryUrl(req))
    case RequestFailed => None
    case Json(info) =>
      match KeySetUri(info, w.platform.doubles.show)
      case None => None
      case Some(uri) =>
        match w.keysAt(uri)
        case RequestFailed => None
        case Json(jwks) => Some(jwks)
  }

  function ClaimOrNull(claims: Claims, name: Bytes): Value {
    if name in claims then claims[name] else Null
  }

  function ReceivedScopes(jwt: DecodedJwt, w: World): set<Bytes> {
    ParseScopes(ClaimOrNull(jwt.payloadClaims, "scp"), w.platform.doubles.show)
    + ParseScopes(ClaimOrNull(jwt.payloadClaims, "scope"), w.platform.doubles.show)
  }

  /** Behind the verifier: identity, then scopes. */
  function DecideVerified(req: Request, w: World, jwt: DecodedJwt): Verdict {
    if req.authnField !in jwt.payloadClaims || w.outOfMemory then DENIED
    else
      Verdict(true, Some(CStr(ToStr(jwt.payloadClaims[req.authnField], w.platform.doubles.show))),
              ScopesAllow(Words(req.scope), ReceivedScopes(jwt, w), IssuerIsAzure(req.issuer)))
  }

  /** With the key set in hand. */
  function DecideWith(req: Request, w: World, jwks: Value): Verdict {
    match Decode(req.token)
    case Failed(_) => DENIED
    case Jwt(jwt) =>
      if "kid" !in jwt.headerClaims || !jwt.headerClaims["kid"].Str? then DENIED
      else
        match ConfigureVerifier(req.issuer, jwks, jwt.headerClaims["kid"].s, w.platform)
        case None => DENIED
        case Some(cfg) =>
          if !V.Accepts(cfg, jwt, w.now, w.platform.doubles) then DENIED else DecideVerified(req, w, jwt)
  }

  function Decide(req: Request, w: World): Verdict {
    match FetchKeys(req, w)
    case None => DENIED
    case Some(jwks) => DecideWith(req, w, jwks)
  }

  class ModuleResult {
    var authnId: Option<Bytes>
    var authorized: bool
  }

  /** `validate_token`. Each `return false` is an early return or an exception of the original. */
  method ValidateToken(req: Request, s: Session, cache: C.Cache, res: ModuleResult) returns (returned: bool)
    requires cache.Valid() && res !in cache.Repr
    modifies res, cache.Repr
    ensures cache.Valid() && fresh(cache.Repr - old(cache.Repr))
    ensures Verdict(returned, res.authnId, res.authorized)
         == Decide(req, WorldOf(req, old(cache.View()), old(cache.attached) || s.attaches, s))
    ensures cache.attached == (old(cache.attached) || s.attaches)
    ensures cache.View() == CacheAfter(req, old(cache.View()), cache.attached, s)
  {
    hide FetchKeys, DecideWith, WorldOf, CacheAfter, C.Cache.Valid, C.Cache.View;
    res.authnId := None;
    res.authorized := false;

    if s.attaches {
      cache.Attach();
    }
    ghost var w := WorldOf(req, cache.View(), cache.attached, s);
    var fetched, jwks := FetchKeySet(req, s, cache);
    if !fetched {
      return false;
    }
    returned := JudgeToken(req, s, w, jwks, res);
  }

  /** `validate_token` behind the second call of `get_json`. */
  method JudgeToken(req: Request, s: Session, ghost w: World, jwks: Value, res: ModuleResult) returns (returned: bool)
    requires w.now == s.now && w.platform == s.platform && w.outOfMemory == s.outOfMemory
    requires res.authnId == None && !res.authorized
    modifies res
    ensures Verdict(returned, res.authnId, res.authorized) == DecideWith(req, w, jwks)
  {
    hide ConfigureVerifier, Decode, V.Accepts, V.Complaints, DecideVerified;
    var decoded := DecodeToken(req.token);
    if decoded.Failed? {
      return false;
    }
    var jwt := decoded.jwt;
    if "kid" !in jwt.headerClaims || !jwt.headerClaims["kid"].Str? {
      return false;
    }
    var ok, verifier := ConfigureVerifierWithJwks(req.issuer, jwks, jwt.headerClaims["kid"].s, s.platform);
    if !ok {
      return false;
    }
    var outcome := verifier.Verify(jwt, s.now, s.platform.doubles);
    if !outcome.Pass? {
      return false;
    }
    returned := SetResult(req, s, w, jwt, res);
  }

  /** The two calls of `get_json`, on one client. */
  method FetchKeySet(req: Request, s: Session, cache: C.Cache) returns (ok: bool, jwks: Value)
    requires cache.Valid()
    modifies cache.Repr
    ensures cache.Valid() && fresh(cache.Repr - old(cache.Repr)) && cache.attached == old(cache.attached)
    ensures var keys := FetchKeys(req, WorldOf(req, old(cache.View()), old(cache.attached), s));
      ok == keys.Some? && (ok ==> jwks == keys.value)
    ensures cache.View() == CacheAfter(req, old(cache.View()), old(cache.attached), s)
  {
    hide C.Cache.Valid, C.Cache.View, GetJsonSpec;
    var http := new Client();
    jwks := Null;
    var url := DiscoveryUrl(req);
    var info := http.GetJson(cache, url, s.info.read, s.info.transfer(url), s.info.stored);
    if info.RequestFailed? || !info.value.Obj? || "jwks_uri" !in info.value.members {
      return false, jwks;
    }
    var uri := ToStr(info.value.members["jwks_uri"], s.platform.doubles.show);
    if uri == "" {
      return false, jwks;
    }
    var keySet := http.GetJson(cache, uri, s.keys.read, s.keys.transfer(uri), s.keys.stored);
    if keySet.RequestFailed? {
      return false, jwks;
    }
    return true, keySet.value;
  }

  /** The end of `validate_token`: the fields of the result. */
  method SetResult(req: Request, s: Session, ghost w: World, jwt: DecodedJwt, res: ModuleResult) returns (returned: bool)
    requires w.platform == s.platform && w.outOfMemory == s.outOfMemory
    requires res.authnId == None && !res.authorized
    modifies res
    ensures Verdict(returned, res.authnId, res.authorized) == DecideVerified(req, w, jwt)
  {
    hide CStr, Words, AzureMatch, ToStr;
    var required := Words(req.scope);
    var received := ParseScopes(ClaimOrNull(jwt.payloadClaims, "scp"), s.platform.doubles.show);
    received := received + ParseScopes(ClaimOrNull(jwt.payloadClaims, "scope"), s.platform.doubles.show);
    if req.authnField !in jwt.payloadClaims || s.outOfMemory {
      return false;
    }
    res.authnId := Some(CStr(ToStr(jwt.payloadClaims[req.authnField], s.platform.doubles.show)));
    if required == {} {
      res.authorized := true;
    } else if IssuerIsAzure(req.issuer) {
      res.authorized := AzureScopesMatch(required, received);
    } else {
      res.authorized := required <= received;
    }
    return true;
  }

  // ----- what an authorization means -----

  /** The override wins when it is set; the document is at the well-known path behind whichever URL
      counts, which is appended unless the URL already ends in it. */
  lemma DiscoveryUrlExact(req: Request)
    ensures
      var base := if req.discoveryOverride == [] then req.issuer else req.discoveryOverride;
      var path: Bytes := "/.well-known/openid-configuration";
      DiscoveryUrl(req) == if exists front: Bytes :: base == front + path then base else base + path
  {
    InfoUrlExact(if req.discoveryOverride == [] then req.issuer else req.discoveryOverride);
  }

  /** The two documents: an object whose `jwks_uri` prints as a URL that is not empty, and whatever
      JSON is at that URL. */
  lemma FetchKeysExact(req: Request, w: World, jwks: Value)
    ensures FetchKeys(req, w) == Some(jwks) <==>
      exists info: map<Bytes, Value>, uri: Bytes ::
        w.infoAt(DiscoveryUrl(req)) == Json(Obj(info)) && "jwks_uri" in info &&
        ToStr(info["jwks_uri"], w.platform.doubles.show) == uri && uri != [] && w.keysAt(uri) == Json(jwks)
  {
    hide ToStr, DiscoveryUrl;
    var answer := w.infoAt(DiscoveryUrl(req));
    if answer.Json? && answer.value.Obj? && "jwks_uri" in answer.value.members {
      assert answer == Json(Obj(answer.value.members));
    }
  }

  /** The fetched set has these keys. */
  predicate HasKeys(jwks: Value, keys: seq<Value>) {
    jwks.Obj? && "keys" in jwks.members && jwks.members["keys"] == Arr(keys)
  }

  lemma KeysExact(jwks: Value, keys: seq<Value>)
    ensures KeysOf(jwks) == Some(keys) <==> HasKeys(jwks, keys)
  {
  }

  /** Everything that has to be true of the token and the keys before the scopes are looked at: the
      `i`-th key of the fetched set is the first signing key with the token's key id, `alg` is the
      algorithm it configures and the one the header names, the signature check passes on the text
      that was signed, the issuer is the expected one, each date is a number that the clock keeps to,
      and the identity claim is there. */
  ghost predicate Accepted(req: Request, w: World, jwt: DecodedJwt, keys: seq<Value>, i: nat, alg: V.Algorithm, iss: Bytes) {
    var header, payload := jwt.headerClaims, jwt.payloadClaims;
    FetchKeys(req, w).Some? && HasKeys(FetchKeys(req, w).value, keys) &&
    Decode(req.token) == Jwt(jwt) &&
    "kid" in header && header["kid"].Str? && FirstMatch(keys, header["kid"].s, w.platform, i) &&
    KeyAlgorithm(keys[i].members, w.platform) == Some(alg) &&
    "alg" in header && header["alg"] == Str(alg.name) && alg.verify(VerifiedText(jwt), jwt.signature).Pass? &&
    ExpectedIssuer(req.issuer, w.platform) == Some(iss) && "iss" in payload && payload["iss"] == Str(iss) &&
    V.InWindow(jwt, 0, w.now, w.platform.doubles) &&
    req.authnField in payload && !w.outOfMemory
  }

  /** That, and the scopes are in order. */
  ghost predicate Evidence(req: Request, w: World, jwt: DecodedJwt, keys: seq<Value>, i: nat, alg: V.Algorithm, iss: Bytes) {
    Accepted(req, w, jwt, keys, i, alg, iss) &&
    ScopesAllow(Words(req.scope), ReceivedScopes(jwt, w), IssuerIsAzure(req.issuer))
  }

  /** What the configured verifier accepts. */
  lemma AcceptsMeaning(iss: Bytes, alg: V.Algorithm, jwt: DecodedJwt, now: int, doubles: V.Doubles)
    ensures
      var cfg := V.Configure(V.Configure(V.INITIAL, V.WithIssuer(iss)), V.AllowAlgorithm(alg));
      var header, payload := jwt.headerClaims, jwt.payloadClaims;
      V.Accepts(cfg, jwt, now, doubles) <==>
        "alg" in header && header["alg"] == Str(alg.name) && alg.verify(VerifiedText(jwt), jwt.signature).Pass? &&
        "iss" in payload && payload["iss"] == Str(iss) && V.InWindow(jwt, 0, now, doubles)
  {
    var cfg := V.Configure(V.Configure(V.INITIAL, V.WithIssuer(iss)), V.AllowAlgorithm(alg));
    var ctx := V.Context(now, jwt, 0, doubles);
    assert cfg.algs == map[alg.name := alg];
    assert cfg.claims.Keys == {"exp", "iat", "nbf", "iss"};
    assert cfg.claims["exp"] == V.DefaultExp && cfg.claims["iat"] == V.DefaultIat && cfg.claims["nbf"] == V.DefaultNbf;
    IssuerCheck(iss, ctx);
    V.DefaultChecks(ctx);
    assert cfg.claims["iss"] == V.Equals(Str(iss), false);
    hide V.Run, V.EndHolds, V.StartHolds;
    if V.InWindow(jwt, 0, now, doubles) && V.Run(V.Equals(Str(iss), false), ctx, "iss").Pass? {
      forall k | k in cfg.claims ensures V.Run(cfg.claims[k], ctx, k).Pass? {
        assert k == "exp" || k == "iat" || k == "nbf" || k == "iss";
      }
    }
  }

  lemma IssuerCheck(iss: Bytes, ctx: V.Context)
    ensures V.Run(V.Equals(Str(iss), false), ctx, "iss").Pass?
      <==> "iss" in ctx.jwt.payloadClaims && ctx.jwt.payloadClaims["iss"] == Str(iss)
  {
  }

  /** Without an allowed algorithm nothing is accepted. */
  lemma NoAlgorithmNoToken(iss: Bytes, jwt: DecodedJwt, now: int, doubles: V.Doubles)
    ensures !V.Accepts(V.Configure(V.INITIAL, V.WithIssuer(iss)), jwt, now, doubles)
  {
  }

  lemma AcceptedExact(req: Request, w: World)
    ensures Decide(req, w).returned <==> exists jwt, keys: seq<Value>, i: nat, alg, iss :: Accepted(req, w, jwt, keys, i, alg, iss)
  {
    hide V.Accepts, V.Configure, KeyAlgorithm, FetchKeys, Decode, ExpectedIssuer, V.InWindow, ScopesAllow, Words,
      ReceivedScopes, IssuerIsAzure, VerifiedText, Visits, CStr, ToStr;
    if Decide(req, w).returned {
      var jwks, jwt := FetchKeys(req, w).value, Decode(req.token).jwt;
      var keys, iss, kid := KeysOf(jwks).value, ExpectedIssuer(req.issuer, w.platform).value, jwt.headerClaims["kid"].s;
      if Visits(keys, kid, w.platform).Skip? {
        NoAlgorithmNoToken(iss, jwt, w.now, w.platform.doubles);
        assert false;
      }
      var alg := Visits(keys, kid, w.platform).alg;
      VisitsFirstMatch(keys, kid, w.platform, alg);
      var i: nat :| FirstMatch(keys, kid, w.platform, i) && KeyAlgorithm(keys[i].members, w.platform) == Some(alg);
      AcceptsMeaning(iss, alg, jwt, w.now, w.platform.doubles);
      assert Accepted(req, w, jwt, keys, i, alg, iss);
    }
    if jwt, keys: seq<Value>, i: nat, alg, iss :| Accepted(req, w, jwt, keys, i, alg, iss) {
      var kid := jwt.headerClaims["kid"].s;
      VisitsFirstMatch(keys, kid, w.platform, alg);
      AcceptsMeaning(iss, alg, jwt, w.now, w.platform.doubles);
    }
  }

  /** The whole verdict: a token is accepted exactly when all of that holds of it; then it names its
      identity claim, up to a NUL, and its scopes alone decide. Otherwise it is denied and names
      nobody. */
  lemma VerdictExact(req: Request, w: World)
    ensures Decide(req, w).returned <==> exists jwt, keys: seq<Value>, i: nat, alg, iss :: Accepted(req, w, jwt, keys, i, alg, iss)
    ensures forall jwt, keys: seq<Value>, i: nat, alg, iss | Accepted(req, w, jwt, keys, i, alg, iss) ::
      Decide(req, w).authnId == Some(CStr(ToStr(jwt.payloadClaims[req.authnField], w.platform.doubles.show))) &&
      Decide(req, w).authorized == ScopesAllow(Words(req.scope), ReceivedScopes(jwt, w), IssuerIsAzure(req.issuer))
    ensures !Decide(req, w).returned ==> Decide(req, w).authnId == None && !Decide(req, w).authorized
  {
    hide V.Accepts, ConfigureVerifier, FetchKeys, Decode, ScopesAllow, Words, ReceivedScopes, IssuerIsAzure, CStr, ToStr,
      FirstMatch, KeyAlgorithm, ExpectedIssuer, V.InWindow, VerifiedText;
    AcceptedExact(req, w);
  }

  /** A token is authorized exactly when there is evidence for it. */
  lemma AuthorizedIffEvidence(req: Request, w: World)
    ensures Decide(req, w).authorized <==> exists jwt, keys: seq<Value>, i: nat, alg, iss :: Evidence(req, w, jwt, keys, i, alg, iss)
  {
    hide Decide, Accepted, ScopesAllow, Words, ReceivedScopes, IssuerIsAzure;
    VerdictExact(req, w);
    if Decide(req, w).authorized {
      var jwt, keys: seq<Value>, i: nat, alg, iss :| Accepted(req, w, jwt, keys, i, alg, iss);
      assert Evidence(req, w, jwt, keys, i, alg, iss);
    }
  }

  /** The token names the scope in one of its two scope claims. */
  ghost predicate TokenLists(claims: Claims, scope: Bytes, fmt: DoubleFormat) {
    exists name | name in {"scp", "scope"} :: name in claims && Lists(claims[name], scope, fmt)
  }

  lemma ReceivedExact(jwt: DecodedJwt, w: World, scope: Bytes)
    ensures scope in ReceivedScopes(jwt, w) <==> TokenLists(jwt.payloadClaims, scope, w.platform.doubles.show)
  {
    hide ParseScopes, Lists;
    var claims, fmt := jwt.payloadClaims, w.platform.doubles.show;
    ParseScopesExact(ClaimOrNull(claims, "scp"), scope, fmt);
    ParseScopesExact(ClaimOrNull(claims, "scope"), scope, fmt);
    assert forall s :: !Lists(Null, s, fmt) by {
      NullListsNothing(fmt);
    }
    if "scp" in claims && Lists(claims["scp"], scope, fmt) {
      assert TokenLists(claims, scope, fmt);
    }
    if "scope" in claims && Lists(claims["scope"], scope, fmt) {
      assert TokenLists(claims, scope, fmt);
    }
  }

  lemma NullListsNothing(fmt: DoubleFormat)
    ensures forall s :: !Lists(Null, s, fmt)
  {
  }

  /** The scopes of an issuer other than Azure are in order exactly when each word of the configured
      scope is named by the token. An empty configuration asks for nothing. */
  lemma ScopesInOrder(req: Request, w: World, jwt: DecodedJwt)
    requires !IssuerIsAzure(req.issuer)
    ensures ScopesAllow(Words(req.scope), ReceivedScopes(jwt, w), IssuerIsAzure(req.issuer)) <==>
      forall word, i: nat | WordAt(req.scope, word, i) :: TokenLists(jwt.payloadClaims, word, w.platform.doubles.show)
  {
    hide Words, WordAt, ReceivedScopes, TokenLists, IssuerIsAzure;
    var required, received := Words(req.scope), ReceivedScopes(jwt, w);
    forall word ensures word in required <==> exists i: nat :: WordAt(req.scope, word, i) {
      WordsExact(req.scope, word);
    }
    forall word ensures word in received <==> TokenLists(jwt.payloadClaims, word, w.platform.doubles.show) {
      ReceivedExact(jwt, w, word);
    }
    if required <= received {
      forall word, i: nat | WordAt(req.scope, word, i) ensures TokenLists(jwt.payloadClaims, word, w.platform.doubles.show) {
        assert word in required;
      }
    }
  }

  /** The token names the scope, or what stands behind its last slash. */
  ghost predicate TokenGrants(claims: Claims, scope: Bytes, fmt: DoubleFormat) {
    TokenLists(claims, scope, fmt) || exists last :: EndsIn(scope, last) && TokenLists(claims, last, fmt)
  }

  /** With an Azure issuer, each word may also be `openid`, be granted by its last part, or have
      nothing behind a slash. */
  lemma AzureScopesInOrder(req: Request, w: World, jwt: DecodedJwt)
    requires IssuerIsAzure(req.issuer)
    ensures ScopesAllow(Words(req.scope), ReceivedScopes(jwt, w), IssuerIsAzure(req.issuer)) <==>
      forall word, i: nat | WordAt(req.scope, word, i) ::
        word == "openid" || TokenGrants(jwt.payloadClaims, word, w.platform.doubles.show) || Bare(word)
  {
    hide Words, WordAt, ReceivedScopes, TokenLists, IssuerIsAzure, AzureMatch, EndsIn, Bare;
    var required, received, fmt := Words(req.scope), ReceivedScopes(jwt, w), w.platform.doubles.show;
    AzureMatchMeaning(required, received);
    forall word ensures word in required <==> exists i: nat :: WordAt(req.scope, word, i) {
      WordsExact(req.scope, word);
    }
    forall word ensures word in received <==> TokenLists(jwt.payloadClaims, word, fmt) {
      ReceivedExact(jwt, w, word);
    }
    forall word ensures Granted(word, received) <==> TokenGrants(jwt.payloadClaims, word, fmt) {
      if last :| EndsIn(word, last) && TokenLists(jwt.payloadClaims, last, fmt) {
        assert last in received;
      }
    }
    if AzureMatch(required, received) {
      forall word, i: nat | WordAt(req.scope, word, i)
        ensures word == "openid" || TokenGrants(jwt.payloadClaims, word, fmt) || Bare(word)
      {
        assert word in required;
      }
    }
  }

  // ----- where the keys come from -----

  /** In a run that other backends may interrupt anywhere, the call finds the cache as the events so
      far have left it. */
  ghost predicate AnswersIn(answer: Bytes -> JsonResult, events: seq<Event>, attached: bool, call: Call) {
    forall url :: answer(url) == CallSpec(RunEvents(events).cache, attached, url, call).1
  }

  /** In every run, an authorization rests on a discovery document and a key set that were each parsed
      from the body of a transfer of their URL, made by this call or not expired when it read the
      cache; the key that decides is in that set. */
  lemma AuthorizationRestsOnFetches(req: Request, w: World, attached: bool, info: Call, keys: Call, before: seq<Event>, between: seq<Event>)
    requires AnswersIn(w.infoAt, before, attached, info) && AnswersIn(w.keysAt, before + between, attached, keys)
    ensures Decide(req, w).authorized ==> exists discovery, uri, jwks, jwt, set0: seq<Value>, i: nat, alg, iss ::
      RestsOnFetch(discovery, DiscoveryUrl(req), RunEvents(before).log, info.read, info.transfer(DiscoveryUrl(req))) &&
      KeySetUri(discovery, w.platform.doubles.show) == Some(uri) &&
      RestsOnFetch(jwks, uri, RunEvents(before + between).log, keys.read, keys.transfer(uri)) &&
      KeysOf(jwks) == Some(set0) && Evidence(req, w, jwt, set0, i, alg, iss)
  {
    hide Decide, Evidence, RunEvents, RestsOnFetch, GetJsonSpec, KeysOf, KeySetUri;
    if Decide(req, w).authorized {
      AuthorizedIffEvidence(req, w);
      var jwt, set0: seq<Value>, i: nat, alg, iss :| Evidence(req, w, jwt, set0, i, alg, iss);
      EvidenceHasKeys(req, w, jwt, set0, i, alg, iss);
      var discovery := w.infoAt(DiscoveryUrl(req)).value;
      var uri := KeySetUri(discovery, w.platform.doubles.show).value;
      var jwks := w.keysAt(uri).value;
      GetJsonAnswers(before, attached, DiscoveryUrl(req), info.read, info.transfer(DiscoveryUrl(req)), info.stored);
      GetJsonAnswers(before + between, attached, uri, keys.read, keys.transfer(uri), keys.stored);
    }
  }

  /** What the first call adds to the events of an attached backend: its lookup and, behind a miss, its
      fetch. */
  function OwnEvents(m: C.Contents, attached: bool, url: Bytes, call: Call): seq<Event> {
    if !attached then []
    else if LookupSpec(m, true, url, call.read).1.Some? then [Lookup(url, call.read)]
    else [Lookup(url, call.read), Fetch(url, call.transfer(url), call.stored)]
  }

  lemma RunOneMore(events: seq<Event>, e: Event)
    ensures RunEvents(events + [e]) == StepEvent(RunEvents(events), e)
  {
    hide StepEvent;
    assert (events + [e])[..|events|] == events;
  }

  lemma OwnEventsRun(before: seq<Event>, attached: bool, url: Bytes, call: Call)
    ensures var m := RunEvents(before).cache;
      RunEvents(before + OwnEvents(m, attached, url, call)).cache == if attached then CallSpec(m, true, url, call).0 else m
  {
    hide RunEvents, G.Parse, C.GetSpec, C.PutSpec;
    var m := RunEvents(before).cache;
    var look, fetch := Lookup(url, call.read), Fetch(url, call.transfer(url), call.stored);
    if !attached {
      assert before + [] == before;
    } else {
      RunOneMore(before, look);
      if LookupSpec(m, true, url, call.read).1.None? {
        RunOneMore(before + [look], fetch);
        assert before + [look] + [fetch] == before + [look, fetch];
      }
    }
  }

  lemma DetachedCallsKeep(m: C.Contents, url: Bytes, call: Call)
    ensures CallSpec(m, false, url, call).0 == m
  {
    hide G.Parse;
  }

  /** An uninterrupted run of `validate_token` is such a run: what stands between its two documents is
      its own lookup and, behind a miss, its own fetch. */
  lemma SessionIsARun(req: Request, before: seq<Event>, attached: bool, s: Session)
    ensures var m := RunEvents(before).cache;
      var w := WorldOf(req, m, attached, s);
      AnswersIn(w.infoAt, before, attached, s.info) &&
      AnswersIn(w.keysAt, before + OwnEvents(m, attached, DiscoveryUrl(req), s.info), attached, s.keys)
  {
    hide RunEvents, CallSpec, OwnEvents, DiscoveryUrl;
    OwnEventsRun(before, attached, DiscoveryUrl(req), s.info);
    DetachedCallsKeep(RunEvents(before).cache, DiscoveryUrl(req), s.info);
  }

  /** So what `ValidateToken` decides rests on fetches, too. */
  lemma SessionRestsOnFetches(req: Request, before: seq<Event>, attached: bool, s: Session)
    ensures var m := RunEvents(before).cache;
      var w := WorldOf(req, m, attached, s);
      var after := before + OwnEvents(m, attached, DiscoveryUrl(req), s.info);
      Decide(req, w).authorized ==> exists discovery, uri, jwks, jwt, set0: seq<Value>, i: nat, alg, iss ::
        RestsOnFetch(discovery, DiscoveryUrl(req), RunEvents(before).log, s.info.read, s.info.transfer(DiscoveryUrl(req))) &&
        KeySetUri(discovery, s.platform.doubles.show) == Some(uri) &&
        RestsOnFetch(jwks, uri, RunEvents(after).log, s.keys.read, s.keys.transfer(uri)) &&
        KeysOf(jwks) == Some(set0) && Evidence(req, w, jwt, set0, i, alg, iss)
  {
    hide *;
    var m := RunEvents(before).cache;
    SessionIsARun(req, before, attached, s);
    AuthorizationRestsOnFetches(req, WorldOf(req, m, attached, s), attached, s.info, s.keys, before,
      OwnEvents(m, attached, DiscoveryUrl(req), s.info));
  }

  lemma EvidenceHasKeys(req: Request, w: World, jwt: DecodedJwt, keys: seq<Value>, i: nat, alg: V.Algorithm, iss: Bytes)
    ensures Evidence(req, w, jwt, keys, i, alg, iss) ==>
      FetchKeys(req, w).Some? && KeysOf(FetchKeys(req, w).value) == Some(keys)
  {
    hide FetchKeys, Decode, FirstMatch, KeyAlgorithm, V.InWindow, ScopesAllow, ExpectedIssuer;
  }

  /** On every way out: a false return denies and names nobody; an authorization is a true return that
      names the identity claim. */
  lemma ExitsAreConsistent(req: Request, w: World)
    ensures !Decide(req, w).returned ==> Decide(req, w) == DENIED
    ensures Decide(req, w).authorized ==> Decide(req, w).returned && Decode(req.token).Jwt?
    ensures Decide(req, w).authorized ==>
      var payload := Decode(req.token).jwt.payloadClaims;
      req.authnField in payload &&
      Decide(req, w).authnId == Some(CStr(ToStr(payload[req.authnField], w.platform.doubles.show)))
  {
    hide V.Accepts, ConfigureVerifier, FetchKeys, Decode, ScopesAllow, Words, CStr, ToStr;
  }

  /** When no key of the fetched set is a signing key with the token's key id, nothing is authorized. */
  lemma NoMatchingKeyNoAuthorization(req: Request, w: World, keys: seq<Value>)
    requires FetchKeys(req, w).Some? && KeysOf(FetchKeys(req, w).value) == Some(keys)
    requires Decode(req.token).Jwt? ==>
      var header := Decode(req.token).jwt.headerClaims;
      forall j | 0 <= j < |keys| ::
        !("kid" in header && header["kid"].Str? && Matches(keys[j], header["kid"].s, w.platform))
    ensures !Decide(req, w).authorized
  {
    hide V.Accepts, Decode, FetchKeys, KeyAlgorithm, V.InWindow, ScopesAllow, Words, Decide;
    AuthorizedIffEvidence(req, w);
  }

  /** Keys behind the first matching one do not influence the verdict: once some key matches, any
      others may be appended. */
  lemma LaterKeysDoNotDecide(req: Request, w: World, w': World, keys: seq<Value>, others: seq<Value>)
    requires FetchKeys(req, w).Some? && KeysOf(FetchKeys(req, w).value) == Some(keys)
    requires FetchKeys(req, w').Some? && KeysOf(FetchKeys(req, w').value) == Some(keys + others)
    requires w'.now == w.now && w'.outOfMemory == w.outOfMemory && w'.platform == w.platform
    requires Decode(req.token).Jwt? ==>
      var header := Decode(req.token).jwt.headerClaims;
      "kid" in header && header["kid"].Str? ==> SomeMatch(keys, header["kid"].s, w.platform)
    ensures Decide(req, w') == Decide(req, w)
  {
    hide V.Accepts, Decode, FetchKeys, KeyAlgorithm, V.InWindow, ScopesAllow, Words, V.Configure, Matches;
    if Decode(req.token).Jwt? {
      var header := Decode(req.token).jwt.headerClaims;
      if "kid" in header && header["kid"].Str? {
        MatchStops(keys, header["kid"].s, w.platform);
        LaterKeysIrrelevant(keys, others, header["kid"].s, w.platform);
      }
    }
  }

  predicate SomeMatch(keys: seq<Value>, kid: Bytes, env: Platform) {
    exists i | 0 <= i < |keys| :: Matches(keys[i], kid, env)
  }

  lemma {:induction false} MatchStops(keys: seq<Value>, kid: Bytes, env: Platform)
    requires SomeMatch(keys, kid, env)
    ensures Visits(keys, kid, env) != Skip
    decreases |keys|
  {
    hide KeyAlgorithm;
    VisitMeaning(keys[0], kid, env);
    if PassedOver(keys[0], kid, env) {
      var i :| 0 <= i < |keys| && Matches(keys[i], kid, env);
      assert keys[i] == keys[1..][i - 1];
      MatchStops(keys[1..], kid, env);
    }
  }

  /** End to end: a token that an issuer builds and signs is authorized, if its header names the first
      matching key of the fetched set and that key's algorithm, the algorithm's check accepts what
      the signer produces, and the claims are right and no deeper than the parser goes. */
  lemma SignedTokenIsAuthorized(
    req: Request, w: World, header: Claims, payload: Claims, signer: Signer, signature: Bytes,
    keys: seq<Value>, kid: Bytes, i: nat, alg: V.Algorithm, iss: Bytes)
    requires DoubleFree(Obj(header)) && DoubleFree(Obj(payload))
    requires FitsDepth(Obj(SignedHeader(header, signer.name)), 100) && FitsDepth(Obj(payload), 100)
    requires
      var input := SigningInput(header, payload, signer.name, w.platform.doubles.show);
      signer.sign(input) == Some(signature) && alg.verify(input, signature).Pass?
    requires SignedToken(header, payload, signer, w.platform.doubles.show) == Some(req.token)
    requires FetchKeys(req, w).Some? && KeysOf(FetchKeys(req, w).value) == Some(keys)
    requires "kid" in header && header["kid"] == Str(kid) && SignedHeader(header, signer.name)["alg"] == Str(alg.name)
    requires FirstMatch(keys, kid, w.platform, i) && KeyAlgorithm(keys[i].members, w.platform) == Some(alg)
    requires ExpectedIssuer(req.issuer, w.platform) == Some(iss) && "iss" in payload && payload["iss"] == Str(iss)
    requires forall jwt: DecodedJwt | jwt.payloadClaims == payload ::
      V.InWindow(jwt, 0, w.now, w.platform.doubles) &&
      ScopesAllow(Words(req.scope), ReceivedScopes(jwt, w), IssuerIsAzure(req.issuer))
    requires req.authnField in payload && !w.outOfMemory
    ensures Decide(req, w) ==
      Verdict(true, Some(CStr(ToStr(payload[req.authnField], w.platform.doubles.show))), true)
  {
    hide Decode, FetchKeys, KeyAlgorithm, V.InWindow, ScopesAllow, Words, SigningInput, SignedToken, VerifiedText,
      ExpectedIssuer, Decide, FitsDepth, DoubleFree, FirstMatch;
    TokenRoundTrip(header, payload, signer, w.platform.doubles.show);
    var jwt := Decode(req.token).jwt;
    assert Evidence(req, w, jwt, keys, i, alg, iss);
    AuthorizedIffEvidence(req, w);
    ExitsAreConsistent(req, w);
  }

  /** A key set with one secret key, and a platform on which its check accepts everything. */
  const SAMPLE_KEY: Claims :=
    map["use" := Str("sig"), "kid" := Str("1"), "kty" := Str("oct"), "alg" := Str("HS256"), "k" := Str("secret")]

  function SamplePlatform(): Platform {
    Platform((_, _) => None, (_, _, _) => None, (_, _) => Some((_, _) => V.Pass), _ => None,
             V.Doubles(_ => [], _ => 0, (_, _) => false))
  }

  function SampleWorld(): World {
    World.World(_ => Json(Obj(map["jwks_uri" := Str("u")])), _ => Json(Obj(map["keys" := Arr([Obj(SAMPLE_KEY)])])),
          0, SamplePlatform(), false)
  }

  const SAMPLE_HEADER: Claims := map["kid" := Str("1")]
  const SAMPLE_PAYLOAD: Claims := map["iss" := Str("i"), "sub" := Str("somebody")]

  lemma SampleKeyWorks() returns (alg: V.Algorithm)
    ensures KeyAlgorithm(SAMPLE_KEY, SamplePlatform()) == Some(alg)
    ensures alg.name == "HS256" && forall text, sig :: alg.verify(text, sig).Pass?
    ensures FirstMatch([Obj(SAMPLE_KEY)], "1", SamplePlatform(), 0)
  {
    alg := KeyAlgorithm(SAMPLE_KEY, SamplePlatform()).value;
  }

  lemma SampleKeysFetched(req: Request)
    ensures FetchKeys(req, SampleWorld()).Some?
    ensures KeysOf(FetchKeys(req, SampleWorld()).value) == Some([Obj(SAMPLE_KEY)])
  {
    hide DiscoveryUrl;
  }

  lemma SampleIssuer()
    ensures ExpectedIssuer("i", SamplePlatform()) == Some("i")
  {
  }

  lemma SampleClaims(jwt: DecodedJwt)
    requires jwt.payloadClaims == SAMPLE_PAYLOAD
    ensures V.InWindow(jwt, 0, 0, SamplePlatform().doubles)
    ensures ScopesAllow(Words(""), ReceivedScopes(jwt, SampleWorld()), IssuerIsAzure("i"))
  {
    hide ReceivedScopes, IssuerIsAzure;
  }

  lemma SampleFits()
    ensures var full := SignedHeader(SAMPLE_HEADER, "HS256");
      full["alg"] == Str("HS256") && FitsDepth(Obj(full), 100)
    ensures DoubleFree(Obj(SAMPLE_HEADER)) && DoubleFree(Obj(SAMPLE_PAYLOAD)) && FitsDepth(Obj(SAMPLE_PAYLOAD), 100)
  {
  }

  /** Those conditions can be met: the validator does not deny everything. */
  lemma SomethingIsAuthorized()
    ensures exists req, w :: Decide(req, w).authorized
  {
    hide FetchKeys, KeyAlgorithm, FirstMatch, Decide, ExpectedIssuer, V.InWindow, ScopesAllow, Words, DoubleFree,
      FitsDepth, SignedHeader, SigningInput, Evidence, KeysOf;
    var w := SampleWorld();
    var signer := Signer("HS256", _ => Some([]));
    var token := SignedToken(SAMPLE_HEADER, SAMPLE_PAYLOAD, signer, w.platform.doubles.show).value;
    var req := Request(token, "", "i", "", "sub");
    var alg := SampleKeyWorks();
    SampleKeysFetched(req);
    SampleIssuer();
    SampleFits();
    forall jwt: DecodedJwt | jwt.payloadClaims == SAMPLE_PAYLOAD
      ensures V.InWindow(jwt, 0, w.now, w.platform.doubles) &&
        ScopesAllow(Words(req.scope), ReceivedScopes(jwt, w), IssuerIsAzure(req.issuer))
    {
      SampleClaims(jwt);
    }
    SignedTokenIsAuthorized(req, w, SAMPLE_HEADER, SAMPLE_PAYLOAD, signer, [], [Obj(SAMPLE_KEY)], "1", 0, alg, "i");
  }
}
