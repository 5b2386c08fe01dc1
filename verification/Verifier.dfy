/** The configurable verifier of jwt-cpp: `verify_ops` and `verifier`. */
module Verifier {
  import opened ByteStrings
  import opened JsonValue
  import JsonText
  import JsonTheorems
  import opened Token

  /** What depends on doubles, which nothing here interprets: how one prints, the second it rounds to
      as a date, and whether two are equal. Every law holds for any choice. */
  datatype Doubles = Doubles(show: DoubleFormat, seconds: Bytes -> int, equal: (Bytes, Bytes) -> bool)

  datatype VerifyError =
    | MissingClaim | ClaimTypeMismatch | ClaimValueMismatch | TokenExpired | AudienceMismatch
    | WrongAlgorithm | InvalidSignature

  /** No error code, an error code, or an exception. */
  datatype Outcome = Pass | Reject(error: VerifyError) | Throws

  datatype Context = Context(now: int, jwt: DecodedJwt, defaultLeeway: nat, doubles: Doubles)

  /** Clock readings are in ticks of a nanosecond; dates in tokens are whole seconds. */
  const TICKS: int := 1_000_000_000

  // ----- the checks -----

  datatype JsonType = Boolean | Integer | Number | String | Array | Object

  /** `get_type`; it throws for null. */
  function TypeOf(v: Value): Option<JsonType> {
    match v
    case Null => None
    case Bool(_) => Some(Boolean)
    case Int(_) => Some(Integer)
    case Float(_) => Some(Number)
    case Str(_) => Some(String)
    case Arr(_) => Some(Array)
    case Obj(_) => Some(Object)
  }

  /** `as_date`, in seconds; it throws unless the value is a number. */
  function DateOf(v: Value, doubles: Doubles): Option<int> {
    match v
    case Int(i) => Some(i)
    case Float(literal) => Some(doubles.seconds(literal))
    case _ => None
  }

  /** `as_set`; it throws for an item that is no string. */
  function SetOf(items: seq<Value>): Option<set<Bytes>> {
    if forall i | 0 <= i < |items| :: items[i].Str? then Some(set i | 0 <= i < |items| :: items[i].s) else None
  }

  datatype Check =
    | DefaultExp | DefaultIat | DefaultNbf
    | DateBefore(leeway: nat, inHeader: bool)
    | DateAfter(leeway: nat, inHeader: bool)
    | Equals(expected: Value, inHeader: bool)
    | IsSubset(audience: set<Bytes>, inHeader: bool)
    | Custom(run: (Context, Bytes) -> Outcome)

  function ClaimsOf(ctx: Context, inHeader: bool): Claims {
    if inHeader then ctx.jwt.headerClaims else ctx.jwt.payloadClaims
  }

  predicate NotAfter(ctx: Context, date: int, leeway: nat) {
    ctx.now <= (date + leeway) * TICKS
  }

  predicate NotBefore(ctx: Context, date: int, leeway: nat) {
    ctx.now >= (date - leeway) * TICKS
  }

  /** A default check: nothing to do when the claim is absent. */
  function DefaultDate(ctx: Context, name: Bytes, latest: bool): Outcome {
    if name !in ctx.jwt.payloadClaims then Pass
    else
      match DateOf(ctx.jwt.payloadClaims[name], ctx.doubles)
      case None => Throws
      case Some(date) =>
        if (if latest then NotAfter(ctx, date, ctx.defaultLeeway) else NotBefore(ctx, date, ctx.defaultLeeway)) then Pass
        else Reject(TokenExpired)
  }

  datatype Fetched = Claim(v: Value) | NoClaim(o: Outcome)

  /** `verify_context::get_claim` with an expected type. */
  function TypedClaim(ctx: Context, key: Bytes, inHeader: bool, t: JsonType): Fetched {
    var claims := ClaimsOf(ctx, inHeader);
    if key !in claims then NoClaim(Reject(MissingClaim))
    else if TypeOf(claims[key]).None? then NoClaim(Throws)
    else if TypeOf(claims[key]).value != t then NoClaim(Reject(ClaimTypeMismatch))
    else Claim(claims[key])
  }

  /** The comparison inside `equals_claim`, for two values of the same type. */
  predicate ClaimEqual(expected: Value, actual: Value, doubles: Doubles) {
    match expected
    case Float(x) => actual.Float? && doubles.equal(x, actual.literal)
    case Arr(_) => JsonText.Serialize(expected, JsonText.COMPACT, doubles.show) == JsonText.Serialize(actual, JsonText.COMPACT, doubles.show)
    case Obj(_) => JsonText.Serialize(expected, JsonText.COMPACT, doubles.show) == JsonText.Serialize(actual, JsonText.COMPACT, doubles.show)
    case _ => expected == actual
  }

  function Run(check: Check, ctx: Context, key: Bytes): Outcome {
    match check
    case DefaultExp => DefaultDate(ctx, "exp", true)
    case DefaultIat => DefaultDate(ctx, "iat", false)
    case DefaultNbf => DefaultDate(ctx, "nbf", false)
    case DateBefore(leeway, inHeader) =>
      (match TypedClaim(ctx, key, inHeader, Integer)
       case NoClaim(o) => o
       case Claim(v) => if v.Int? && NotAfter(ctx, v.i, leeway) then Pass else Reject(TokenExpired))
    case DateAfter(leeway, inHeader) =>
      (match TypedClaim(ctx, key, inHeader, Integer)
       case NoClaim(o) => o
       case Claim(v) => if v.Int? && NotBefore(ctx, v.i, leeway) then Pass else Reject(TokenExpired))
    case Equals(expected, inHeader) =>
      if TypeOf(expected).None? then Throws
      else
        (match TypedClaim(ctx, key, inHeader, TypeOf(expected).value)
         case NoClaim(o) => o
         case Claim(v) => if ClaimEqual(expected, v, ctx.doubles) then Pass else Reject(ClaimValueMismatch))
    case IsSubset(audience, inHeader) =>
      var claims := ClaimsOf(ctx, inHeader);
      if key !in claims then Reject(MissingClaim)
      else
        (match claims[key]
         case Null => Throws
         case Str(s) => if audience == {s} then Pass else Reject(AudienceMismatch)
         case Arr(items) =>
           (match SetOf(items)
            case None => Throws
            case Some(present) => if audience <= present then Pass else Reject(AudienceMismatch))
         case _ => Reject(ClaimTypeMismatch))
    case Custom(run) => run(ctx, key)
  }

  /** On values without doubles `equals_claim` is structural equality, nested values included. */
  lemma EqualsIsStructural(expected: Value, inHeader: bool, ctx: Context, key: Bytes)
    requires DoubleFree(expected) && expected != Null
    requires key in ClaimsOf(ctx, inHeader) ==> DoubleFree(ClaimsOf(ctx, inHeader)[key])
    ensures Run(Equals(expected, inHeader), ctx, key).Pass?
      <==> key in ClaimsOf(ctx, inHeader) && ClaimsOf(ctx, inHeader)[key] == expected
  {
    hide JsonText.Serialize;
    if key in ClaimsOf(ctx, inHeader) {
      var actual := ClaimsOf(ctx, inHeader)[key];
      JsonTheorems.SerializationDecidesEquality(expected, actual, ctx.doubles.show);
    }
  }

  /** A claim that `as_date` can read, and the second it names. */
  predicate IsDate(v: Value) {
    v.Int? || v.Float?
  }

  function Second(v: Value, doubles: Doubles): int
    requires IsDate(v)
  {
    if v.Int? then v.i else doubles.seconds(v.literal)
  }

  predicate EndHolds(ctx: Context, name: Bytes) {
    var claims := ctx.jwt.payloadClaims;
    name in claims ==>
      IsDate(claims[name]) && ctx.now <= (Second(claims[name], ctx.doubles) + ctx.defaultLeeway) * 1_000_000_000
  }

  predicate StartHolds(ctx: Context, name: Bytes) {
    var claims := ctx.jwt.payloadClaims;
    name in claims ==>
      IsDate(claims[name]) && (Second(claims[name], ctx.doubles) - ctx.defaultLeeway) * 1_000_000_000 <= ctx.now
  }

  /** Whichever of the three dates a token carries is a number, and the clock keeps within it. */
  predicate InWindow(jwt: DecodedJwt, leeway: nat, now: int, doubles: Doubles) {
    var ctx := Context(now, jwt, leeway, doubles);
    EndHolds(ctx, "exp") && StartHolds(ctx, "iat") && StartHolds(ctx, "nbf")
  }

  /** For every token: each of the three checks a verifier starts with passes exactly when the date
      holds, so a date that is no number is never let through. */
  lemma DefaultChecks(ctx: Context)
    ensures Run(DefaultExp, ctx, "exp").Pass? <==> EndHolds(ctx, "exp")
    ensures Run(DefaultIat, ctx, "iat").Pass? <==> StartHolds(ctx, "iat")
    ensures Run(DefaultNbf, ctx, "nbf").Pass? <==> StartHolds(ctx, "nbf")
  {
  }

  predicate SameType(a: Value, b: Value) {
    (a.Bool? && b.Bool?) || (a.Int? && b.Int?) || (a.Float? && b.Float?) || (a.Str? && b.Str?) ||
    (a.Arr? && b.Arr?) || (a.Obj? && b.Obj?)
  }

  /** What makes two values of one type equal: arrays and objects their texts, doubles themselves. */
  predicate SameClaim(a: Value, b: Value, doubles: Doubles) {
    if a.Float? && b.Float? then doubles.equal(a.literal, b.literal)
    else if a.Arr? || a.Obj? then
      JsonText.Serialize(a, JsonText.COMPACT, doubles.show) == JsonText.Serialize(b, JsonText.COMPACT, doubles.show)
    else a == b
  }

  /** Which error each failure gives, and that nothing else fails: a null throws, whichever side it is
      on; then a missing claim, a claim of another type, a value that differs. */
  lemma EqualsOutcome(expected: Value, inHeader: bool, ctx: Context, key: Bytes)
    ensures
      var claims := if inHeader then ctx.jwt.headerClaims else ctx.jwt.payloadClaims;
      var o := Run(Equals(expected, inHeader), ctx, key);
      if expected == Null then o == Throws
      else if key !in claims then o == Reject(MissingClaim)
      else if claims[key] == Null then o == Throws
      else if !SameType(expected, claims[key]) then o == Reject(ClaimTypeMismatch)
      else if SameClaim(expected, claims[key], ctx.doubles) then o == Pass
      else o == Reject(ClaimValueMismatch)
  {
    hide JsonText.Serialize;
  }

  /** The same for the two date checks with their own leeway, which take integers only ... */
  lemma DateOutcome(leeway: nat, inHeader: bool, ctx: Context, key: Bytes)
    ensures
      var claims := if inHeader then ctx.jwt.headerClaims else ctx.jwt.payloadClaims;
      var before, after := Run(DateBefore(leeway, inHeader), ctx, key), Run(DateAfter(leeway, inHeader), ctx, key);
      if key !in claims then before == after == Reject(MissingClaim)
      else
        match claims[key]
        case Null => before == after == Throws
        case Int(i) =>
          before == (if ctx.now <= (i + leeway) * 1_000_000_000 then Pass else Reject(TokenExpired)) &&
          after == (if (i - leeway) * 1_000_000_000 <= ctx.now then Pass else Reject(TokenExpired))
        case _ => before == after == Reject(ClaimTypeMismatch)
  {
  }

  /** The string is an item of the array. */
  predicate HasItem(items: seq<Value>, s: Bytes) {
    Str(s) in items
  }

  /** ... and for the audience: a string has to be the whole expected set, an array of strings has to
      hold each expected one, and an array with anything else in it throws. */
  lemma SubsetOutcome(audience: set<Bytes>, inHeader: bool, ctx: Context, key: Bytes)
    ensures
      var claims := if inHeader then ctx.jwt.headerClaims else ctx.jwt.payloadClaims;
      var o := Run(IsSubset(audience, inHeader), ctx, key);
      if key !in claims then o == Reject(MissingClaim)
      else
        match claims[key]
        case Null => o == Throws
        case Str(s) => o == (if forall a :: a in audience <==> a == s then Pass else Reject(AudienceMismatch))
        case Arr(items) =>
          if exists i | 0 <= i < |items| :: !items[i].Str? then o == Throws
          else o == (if forall a | a in audience :: HasItem(items, a) then Pass else Reject(AudienceMismatch))
        case _ => o == Reject(ClaimTypeMismatch)
  {
    var claims := ClaimsOf(ctx, inHeader);
    if key in claims && claims[key].Arr? {
      var items := claims[key].items;
      if forall i | 0 <= i < |items| :: items[i].Str? {
        forall a ensures a in SetOf(items).value <==> HasItem(items, a) {
          if HasItem(items, a) {
            var i :| 0 <= i < |items| && items[i] == Str(a);
            assert items[i].s == a;
          }
        }
      }
    }
  }

  // ----- configuration -----

  /** An algorithm that has been allowed: its name and its signature check, which stays abstract. */
  datatype Algorithm = Algorithm(name: Bytes, verify: (Bytes, Bytes) -> Outcome)

  datatype Config = Config(claims: map<Bytes, Check>, defaultLeeway: nat, algs: map<Bytes, Algorithm>)

  const INITIAL: Config := Config(map["exp" := DefaultExp, "iat" := DefaultIat, "nbf" := DefaultNbf], 0, map[])

  /** One call of a setter. */
  datatype Call =
    | Leeway(n: nat)
    | ExpiresAtLeeway(n: nat) | NotBeforeLeeway(n: nat) | IssuedAtLeeway(n: nat)
    | WithIssuer(s: Bytes) | WithSubject(s: Bytes) | WithId(s: Bytes)
    | WithAudience(audience: set<Bytes>)
    | WithClaim(name: Bytes, check: Check)
    | AllowAlgorithm(alg: Algorithm)

  /** The check a call registers, and under which name. */
  function Registers(call: Call): Option<(Bytes, Check)> {
    match call
    case ExpiresAtLeeway(n) => Some(("exp", DateBefore(n, false)))
    case NotBeforeLeeway(n) => Some(("nbf", DateAfter(n, false)))
    case IssuedAtLeeway(n) => Some(("iat", DateAfter(n, false)))
    case WithIssuer(s) => Some(("iss", Equals(Str(s), false)))
    case WithSubject(s) => Some(("sub", Equals(Str(s), false)))
    case WithId(s) => Some(("jti", Equals(Str(s), false)))
    case WithAudience(audience) => Some(("aud", IsSubset(audience, false)))
    case WithClaim(name, check) => Some((name, check))
    case _ => None
  }

  function Configure(cfg: Config, call: Call): Config {
    match call
    case Leeway(n) => cfg.(defaultLeeway := n)
    case AllowAlgorithm(alg) => cfg.(algs := cfg.algs[alg.name := alg])
    case _ => var r := Registers(call).value; cfg.(claims := cfg.claims[r.0 := r.1])
  }

  function ConfigureAll(calls: seq<Call>): Config {
    if calls == [] then INITIAL else Configure(ConfigureAll(calls[..|calls| - 1]), calls[|calls| - 1])
  }

  /** What a setter asks of a token. */
  predicate Demands(call: Call, ctx: Context) {
    var payload, now := ctx.jwt.payloadClaims, ctx.now;
    match call
    case ExpiresAtLeeway(n) => "exp" in payload && payload["exp"].Int? && now <= (payload["exp"].i + n) * 1_000_000_000
    case NotBeforeLeeway(n) => "nbf" in payload && payload["nbf"].Int? && (payload["nbf"].i - n) * 1_000_000_000 <= now
    case IssuedAtLeeway(n) => "iat" in payload && payload["iat"].Int? && (payload["iat"].i - n) * 1_000_000_000 <= now
    case WithIssuer(s) => "iss" in payload && payload["iss"] == Str(s)
    case WithSubject(s) => "sub" in payload && payload["sub"] == Str(s)
    case WithId(s) => "jti" in payload && payload["jti"] == Str(s)
    case WithAudience(audience) =>
      "aud" in payload &&
      (match payload["aud"]
       case Str(s) => audience == {s}
       case Arr(items) => (forall i | 0 <= i < |items| :: items[i].Str?) && forall a | a in audience :: HasItem(items, a)
       case _ => false)
    case WithClaim(name, check) => Run(check, ctx, name).Pass?
    case _ => true
  }

  /** The claim a setter is about. */
  function ClaimOf(call: Call): Option<Bytes> {
    match call
    case ExpiresAtLeeway(_) => Some("exp")
    case NotBeforeLeeway(_) => Some("nbf")
    case IssuedAtLeeway(_) => Some("iat")
    case WithIssuer(_) => Some("iss")
    case WithSubject(_) => Some("sub")
    case WithId(_) => Some("jti")
    case WithAudience(_) => Some("aud")
    case WithClaim(name, _) => Some(name)
    case _ => None
  }

  /** The check that a setter registers passes exactly on the tokens that meet its demand. */
  lemma SetterMeaning(call: Call, ctx: Context)
    ensures Registers(call).Some? <==> ClaimOf(call).Some?
    ensures ClaimOf(call).Some? ==>
      Registers(call).value.0 == ClaimOf(call).value &&
      (Run(Registers(call).value.1, ctx, ClaimOf(call).value).Pass? <==> Demands(call, ctx))
  {
    match call {
      case ExpiresAtLeeway(n) => DateOutcome(n, false, ctx, "exp");
      case NotBeforeLeeway(n) => DateOutcome(n, false, ctx, "nbf");
      case IssuedAtLeeway(n) => DateOutcome(n, false, ctx, "iat");
      case WithIssuer(s) => EqualsOutcome(Str(s), false, ctx, "iss");
      case WithSubject(s) => EqualsOutcome(Str(s), false, ctx, "sub");
      case WithId(s) => EqualsOutcome(Str(s), false, ctx, "jti");
      case WithAudience(audience) => SubsetOutcome(audience, false, ctx, "aud");
      case _ =>
    }
  }

  class Verifier {
    var claims: map<Bytes, Check>
    var defaultLeeway: nat
    var algs: map<Bytes, Algorithm>

    function View(): Config
      reads this
    {
      Config(claims, defaultLeeway, algs)
    }

    constructor ()
      ensures View() == INITIAL
    {
      claims := map["exp" := DefaultExp, "iat" := DefaultIat, "nbf" := DefaultNbf];
      defaultLeeway := 0;
      algs := map[];
    }

    method SetLeeway(n: nat)
      modifies this
      ensures View() == Configure(old(View()), Leeway(n))
    {
      defaultLeeway := n;
    }

    method SetExpiresAtLeeway(n: nat)
      modifies this
      ensures View() == Configure(old(View()), ExpiresAtLeeway(n))
    {
      claims := claims["exp" := DateBefore(n, false)];
    }

    method SetNotBeforeLeeway(n: nat)
      modifies this
      ensures View() == Configure(old(View()), NotBeforeLeeway(n))
    {
      claims := claims["nbf" := DateAfter(n, false)];
    }

    method SetIssuedAtLeeway(n: nat)
      modifies this
      ensures View() == Configure(old(View()), IssuedAtLeeway(n))
    {
      claims := claims["iat" := DateAfter(n, false)];
    }

    method RequireAudience(audience: set<Bytes>)
      modifies this
      ensures View() == Configure(old(View()), WithAudience(audience))
    {
      claims := claims["aud" := IsSubset(audience, false)];
    }

    method RequireClaim(name: Bytes, check: Check)
      modifies this
      ensures View() == Configure(old(View()), WithClaim(name, check))
    {
      claims := claims[name := check];
    }

    method RequireIssuer(iss: Bytes)
      modifies this
      ensures View() == Configure(old(View()), WithIssuer(iss))
    {
      RequireClaim("iss", Equals(Str(iss), false));
    }

    method RequireSubject(sub: Bytes)
      modifies this
      ensures View() == Configure(old(View()), WithSubject(sub))
    {
      RequireClaim("sub", Equals(Str(sub), false));
    }

    method RequireId(id: Bytes)
      modifies this
      ensures View() == Configure(old(View()), WithId(id))
    {
      RequireClaim("jti", Equals(Str(id), false));
    }

    method Allow(alg: Algorithm)
      modifies this
      ensures View() == Configure(old(View()), AllowAlgorithm(alg))
    {
      algs := algs[alg.name := alg];
    }

    /** `verify`. The claims are visited in whatever order the hash map keeps them: each turn takes
        any one that is left. */
    method Verify(jwt: DecodedJwt, now: int, doubles: Doubles) returns (o: Outcome)
      ensures o.Pass? <==> Accepts(View(), jwt, now, doubles)
      ensures !o.Pass? ==> o in Complaints(View(), jwt, now, doubles)
    {
      if "alg" !in jwt.headerClaims || !jwt.headerClaims["alg"].Str? {
        return Throws;
      }
      var alg := jwt.headerClaims["alg"].s;
      if alg !in algs {
        return Reject(WrongAlgorithm);
      }
      o := algs[alg].verify(VerifiedText(jwt), jwt.signature);
      if !o.Pass? {
        return;
      }
      var ctx := Context(now, jwt, defaultLeeway, doubles);
      var left := claims.Keys;
      while left != {}
        invariant left <= claims.Keys
        invariant forall k | k in claims.Keys - left :: Run(claims[k], ctx, k).Pass?
      {
        var key :| key in left;
        o := Run(claims[key], ctx, key);
        if !o.Pass? {
          return;
        }
        left := left - {key};
      }
      return Pass;
    }
  }

  /** Acceptance, with no order in it. */
  predicate Accepts(cfg: Config, jwt: DecodedJwt, now: int, doubles: Doubles) {
    "alg" in jwt.headerClaims && jwt.headerClaims["alg"].Str? &&
    var alg := jwt.headerClaims["alg"].s;
    alg in cfg.algs && cfg.algs[alg].verify(VerifiedText(jwt), jwt.signature).Pass? &&
    forall k | k in cfg.claims :: Run(cfg.claims[k], Context(now, jwt, cfg.defaultLeeway, doubles), k).Pass?
  }

  /** The outcomes other than acceptance that `verify` may end with. Where several checks fail, which
      one is reported depends on the order of the hash map. */
  function Complaints(cfg: Config, jwt: DecodedJwt, now: int, doubles: Doubles): set<Outcome> {
    if "alg" !in jwt.headerClaims || !jwt.headerClaims["alg"].Str? then {Throws}
    else
      var alg := jwt.headerClaims["alg"].s;
      if alg !in cfg.algs then {Reject(WrongAlgorithm)}
      else
        var o := cfg.algs[alg].verify(VerifiedText(jwt), jwt.signature);
        if !o.Pass? then {o}
        else
          set k | k in cfg.claims && !Run(cfg.claims[k], Context(now, jwt, cfg.defaultLeeway, doubles), k).Pass?
            :: Run(cfg.claims[k], Context(now, jwt, cfg.defaultLeeway, doubles), k)
  }

  lemma FailureIsReported(cfg: Config, jwt: DecodedJwt, now: int, doubles: Doubles, k: Bytes)
    requires k in cfg.claims && !Run(cfg.claims[k], Context(now, jwt, cfg.defaultLeeway, doubles), k).Pass?
    ensures exists o :: o in Complaints(cfg, jwt, now, doubles)
  {
    hide Run;
    var o := Run(cfg.claims[k], Context(now, jwt, cfg.defaultLeeway, doubles), k);
    if "alg" !in jwt.headerClaims || !jwt.headerClaims["alg"].Str? {
      assert Throws in Complaints(cfg, jwt, now, doubles);
    } else if jwt.headerClaims["alg"].s !in cfg.algs {
      assert Reject(WrongAlgorithm) in Complaints(cfg, jwt, now, doubles);
    } else if !cfg.algs[jwt.headerClaims["alg"].s].verify(VerifiedText(jwt), jwt.signature).Pass? {
      assert cfg.algs[jwt.headerClaims["alg"].s].verify(VerifiedText(jwt), jwt.signature) in Complaints(cfg, jwt, now, doubles);
    } else {
      assert o in Complaints(cfg, jwt, now, doubles);
    }
  }

  /** Every way to reject, in the order in which it is found: the header names no algorithm, it names
      one that is not allowed, the signature check fails, or some claim's check does. */
  lemma RejectionReasons(cfg: Config, jwt: DecodedJwt, now: int, doubles: Doubles, o: Outcome)
    ensures
      var header := jwt.headerClaims;
      var ctx := Context(now, jwt, cfg.defaultLeeway, doubles);
      o in Complaints(cfg, jwt, now, doubles) <==>
        if !(exists name :: "alg" in header && header["alg"] == Str(name)) then o == Throws
        else if header["alg"].s !in cfg.algs then o == Reject(WrongAlgorithm)
        else if cfg.algs[header["alg"].s].verify(VerifiedText(jwt), jwt.signature) != Pass
        then o == cfg.algs[header["alg"].s].verify(VerifiedText(jwt), jwt.signature)
        else o != Pass && exists k | k in cfg.claims :: Run(cfg.claims[k], ctx, k) == o
    ensures Accepts(cfg, jwt, now, doubles) <==> Complaints(cfg, jwt, now, doubles) == {}
  {
    hide Run;
    var header := jwt.headerClaims;
    if "alg" in header && header["alg"].Str? {
      assert header["alg"] == Str(header["alg"].s);
    }
    var ctx := Context(now, jwt, cfg.defaultLeeway, doubles);
    if !Accepts(cfg, jwt, now, doubles) && exists k | k in cfg.claims :: !Run(cfg.claims[k], ctx, k).Pass? {
      var k :| k in cfg.claims && !Run(cfg.claims[k], ctx, k).Pass?;
      FailureIsReported(cfg, jwt, now, doubles, k);
    }
  }

  // ----- the last call wins -----

  /** The check that the last call about `name` registered; the three dates start with one. */
  function LastCheck(calls: seq<Call>, name: Bytes): Option<Check> {
    if calls == [] then
      (if name == "exp" then Some(DefaultExp) else if name == "iat" then Some(DefaultIat)
       else if name == "nbf" then Some(DefaultNbf) else None)
    else
      var r := Registers(calls[|calls| - 1]);
      if r.Some? && r.value.0 == name then Some(r.value.1) else LastCheck(calls[..|calls| - 1], name)
  }

  function LastAlgorithm(calls: seq<Call>, name: Bytes): Option<Algorithm> {
    if calls == [] then None
    else
      var c := calls[|calls| - 1];
      if c.AllowAlgorithm? && c.alg.name == name then Some(c.alg) else LastAlgorithm(calls[..|calls| - 1], name)
  }

  function LastLeeway(calls: seq<Call>): nat {
    if calls == [] then 0
    else if calls[|calls| - 1].Leeway? then calls[|calls| - 1].n
    else LastLeeway(calls[..|calls| - 1])
  }

  lemma {:induction false} ConfigIsLastCalls(calls: seq<Call>, name: Bytes)
    ensures var cfg := ConfigureAll(calls);
      (name in cfg.claims <==> LastCheck(calls, name).Some?) &&
      (name in cfg.claims ==> cfg.claims[name] == LastCheck(calls, name).value) &&
      (name in cfg.algs <==> LastAlgorithm(calls, name).Some?) &&
      (name in cfg.algs ==> cfg.algs[name] == LastAlgorithm(calls, name).value) &&
      cfg.defaultLeeway == LastLeeway(calls)
    decreases |calls|
  {
    if calls != [] {
      ConfigIsLastCalls(calls[..|calls| - 1], name);
    }
  }

  /** Acceptance in terms of the calls alone: the algorithm was allowed and the signature check of the
      last such call passes, and so does the last check registered for each claim, with the last
      leeway set. */
  ghost predicate LastCallsAccept(calls: seq<Call>, jwt: DecodedJwt, now: int, doubles: Doubles) {
    "alg" in jwt.headerClaims && jwt.headerClaims["alg"].Str? &&
    LastSignatureCheckPasses(calls, jwt, jwt.headerClaims["alg"].s) &&
    forall k :: LastCheckPasses(calls, Context(now, jwt, LastLeeway(calls), doubles), k)
  }

  predicate LastSignatureCheckPasses(calls: seq<Call>, jwt: DecodedJwt, alg: Bytes) {
    var a := LastAlgorithm(calls, alg);
    a.Some? && a.value.verify(VerifiedText(jwt), jwt.signature).Pass?
  }

  predicate LastCheckPasses(calls: seq<Call>, ctx: Context, key: Bytes) {
    var c := LastCheck(calls, key);
    c.Some? ==> Run(c.value, ctx, key).Pass?
  }

  /** After any sequence of calls, a token is accepted exactly when the last calls accept it. */
  lemma AcceptanceAfterCalls(calls: seq<Call>, jwt: DecodedJwt, now: int, doubles: Doubles)
    ensures Accepts(ConfigureAll(calls), jwt, now, doubles) <==> LastCallsAccept(calls, jwt, now, doubles)
  {
    hide Run;
    var cfg := ConfigureAll(calls);
    ConfigIsLastCalls(calls, if "alg" in jwt.headerClaims && jwt.headerClaims["alg"].Str? then jwt.headerClaims["alg"].s else []);
    var ctx := Context(now, jwt, cfg.defaultLeeway, doubles);
    forall k ensures LastCheckPasses(calls, ctx, k) <==> (k in cfg.claims ==> Run(cfg.claims[k], ctx, k).Pass?) {
      ConfigIsLastCalls(calls, k);
    }
    if LastCallsAccept(calls, jwt, now, doubles) {
      forall k | k in cfg.claims ensures Run(cfg.claims[k], ctx, k).Pass? {
        assert LastCheckPasses(calls, ctx, k);
      }
    }
  }

  /** No later call is about the same claim. */
  predicate LastAbout(calls: seq<Call>, i: nat) {
    i < |calls| && ClaimOf(calls[i]).Some? && forall j | i < j < |calls| :: ClaimOf(calls[j]) != ClaimOf(calls[i])
  }

  predicate NeverSet(calls: seq<Call>, name: Bytes) {
    forall j | 0 <= j < |calls| :: ClaimOf(calls[j]) != Some(name)
  }

  /** The token meets the demand of the last call about each claim, and each date that no call was
      about holds. */
  predicate MeetsDemands(calls: seq<Call>, ctx: Context) {
    (forall i: nat | i < |calls| && LastAbout(calls, i) :: Demands(calls[i], ctx)) &&
    (NeverSet(calls, "exp") ==> EndHolds(ctx, "exp")) &&
    (NeverSet(calls, "iat") ==> StartHolds(ctx, "iat")) &&
    (NeverSet(calls, "nbf") ==> StartHolds(ctx, "nbf"))
  }

  lemma LastAboutStep(calls: seq<Call>, i: nat, name: Bytes)
    requires calls != []
    ensures var n := |calls| - 1;
      i < n ==> (LastAbout(calls, i) <==> LastAbout(calls[..n], i) && ClaimOf(calls[n]) != ClaimOf(calls[i]))
    ensures NeverSet(calls, name) <==> NeverSet(calls[..|calls| - 1], name) && ClaimOf(calls[|calls| - 1]) != Some(name)
  {
    hide ClaimOf;
    var n := |calls| - 1;
    assert forall j | 0 <= j < n :: calls[..n][j] == calls[j];
    if i < n && LastAbout(calls, i) {
      forall j | i < j < n ensures ClaimOf(calls[..n][j]) != ClaimOf(calls[..n][i]) {
        assert calls[..n][j] == calls[j];
      }
    }
    if NeverSet(calls, name) {
      forall j | 0 <= j < n ensures ClaimOf(calls[..n][j]) != Some(name) {
        assert calls[..n][j] == calls[j];
      }
    }
  }

  lemma RegistersItsClaim(call: Call)
    ensures Registers(call).Some? <==> ClaimOf(call).Some?
    ensures ClaimOf(call).Some? ==> Registers(call).value.0 == ClaimOf(call).value
  {
  }

  lemma {:induction false} LastCheckOf(calls: seq<Call>, name: Bytes)
    ensures NeverSet(calls, name) ==> LastCheck(calls, name) == LastCheck([], name)
    ensures forall i: nat | LastAbout(calls, i) && ClaimOf(calls[i]) == Some(name) ::
      Registers(calls[i]).Some? && LastCheck(calls, name) == Some(Registers(calls[i]).value.1)
    ensures NeverSet(calls, name) || exists i: nat :: LastAbout(calls, i) && ClaimOf(calls[i]) == Some(name)
    decreases |calls|
  {
    hide Registers, ClaimOf, LastAbout, NeverSet;
    if calls == [] {
      NothingSet(calls, name);
    } else {
      var n := |calls| - 1;
      var last := calls[n];
      LastCheckOf(calls[..n], name);
      RegistersItsClaim(last);
      LastIsLast(calls);
      LastInside(calls[..n]);
      LastInside(calls);
      forall i: nat ensures i < n ==> (LastAbout(calls, i) <==> LastAbout(calls[..n], i) && ClaimOf(last) != ClaimOf(calls[i])) {
        LastAboutStep(calls, i, name);
      }
      LastAboutStep(calls, 0, name);
      if ClaimOf(last) != Some(name) && !NeverSet(calls[..n], name) {
        var i: nat :| LastAbout(calls[..n], i) && ClaimOf(calls[..n][i]) == Some(name);
        assert LastAbout(calls, i);
      }
      forall i: nat | LastAbout(calls, i) && ClaimOf(calls[i]) == Some(name)
        ensures Registers(calls[i]).Some? && LastCheck(calls, name) == Some(Registers(calls[i]).value.1)
      {
        if i < n {
          assert calls[..n][i] == calls[i];
        }
      }
    }
  }

  lemma NothingSet(calls: seq<Call>, name: Bytes)
    requires calls == []
    ensures NeverSet(calls, name) && forall i: nat :: !LastAbout(calls, i)
  {
  }

  lemma LastIsLast(calls: seq<Call>)
    requires calls != []
    ensures LastAbout(calls, |calls| - 1) <==> ClaimOf(calls[|calls| - 1]).Some?
  {
  }

  lemma LastInside(calls: seq<Call>)
    ensures forall i: nat | LastAbout(calls, i) :: i < |calls|
  {
  }

  /** What a verifier accepts after any calls, without a word about checks: the signature check of the
      last algorithm allowed under the header's name passes, and the claims meet the last demands. */
  lemma AcceptanceMeaning(calls: seq<Call>, jwt: DecodedJwt, now: int, doubles: Doubles)
    ensures Accepts(ConfigureAll(calls), jwt, now, doubles) <==>
      "alg" in jwt.headerClaims && jwt.headerClaims["alg"].Str? &&
      LastSignatureCheckPasses(calls, jwt, jwt.headerClaims["alg"].s) &&
      MeetsDemands(calls, Context(now, jwt, LastLeeway(calls), doubles))
  {
    hide Run, Registers, Demands, Accepts, EndHolds, StartHolds, LastSignatureCheckPasses, ClaimOf;
    AcceptanceAfterCalls(calls, jwt, now, doubles);
    var ctx := Context(now, jwt, LastLeeway(calls), doubles);
    DefaultChecks(ctx);
    LastCheckOf(calls, "exp");
    LastCheckOf(calls, "iat");
    LastCheckOf(calls, "nbf");
    if forall k :: LastCheckPasses(calls, ctx, k) {
      assert LastCheckPasses(calls, ctx, "exp") && LastCheckPasses(calls, ctx, "iat") && LastCheckPasses(calls, ctx, "nbf");
      forall i: nat | i < |calls| && LastAbout(calls, i) ensures Demands(calls[i], ctx) {
        var name := ClaimOf(calls[i]).value;
        LastCheckOf(calls, name);
        SetterMeaning(calls[i], ctx);
        assert LastCheckPasses(calls, ctx, name);
      }
    }
    if MeetsDemands(calls, ctx) {
      forall k ensures LastCheckPasses(calls, ctx, k) {
        LastCheckOf(calls, k);
        if !NeverSet(calls, k) {
          var i: nat :| LastAbout(calls, i) && ClaimOf(calls[i]) == Some(k);
          SetterMeaning(calls[i], ctx);
        }
      }
    }
  }

  // ----- time -----

  /** No caller-supplied check, whose dependence on the clock nothing says. */
  predicate NoCustom(cfg: Config) {
    forall k | k in cfg.claims :: !cfg.claims[k].Custom?
  }

  lemma CheckInterval(check: Check, a: Context, b: Context, c: Context, key: Bytes)
    requires !check.Custom? && a.now <= b.now <= c.now
    requires a.(now := b.now) == b && c.(now := b.now) == b
    requires Run(check, a, key).Pass? && Run(check, c, key).Pass?
    ensures Run(check, b, key).Pass?
  {
    hide JsonText.Serialize;
  }

  /** The clock readings at which a token is accepted form an interval ... */
  lemma AcceptedTimesAreAnInterval(cfg: Config, jwt: DecodedJwt, t1: int, t2: int, t3: int, doubles: Doubles)
    requires NoCustom(cfg) && t1 <= t2 <= t3
    requires Accepts(cfg, jwt, t1, doubles) && Accepts(cfg, jwt, t3, doubles)
    ensures Accepts(cfg, jwt, t2, doubles)
  {
    hide Run;
    forall k | k in cfg.claims ensures Run(cfg.claims[k], Context(t2, jwt, cfg.defaultLeeway, doubles), k).Pass? {
      CheckInterval(cfg.claims[k], Context(t1, jwt, cfg.defaultLeeway, doubles), Context(t2, jwt, cfg.defaultLeeway, doubles),
                    Context(t3, jwt, cfg.defaultLeeway, doubles), k);
    }
  }

  lemma CheckLeeway(check: Check, ctx: Context, more: nat, key: Bytes)
    requires !check.Custom? && ctx.defaultLeeway <= more && Run(check, ctx, key).Pass?
    ensures Run(check, ctx.(defaultLeeway := more), key).Pass?
  {
    hide JsonText.Serialize;
  }

  /** ... that only grows with the leeway. */
  lemma LeewayOnlyWidens(cfg: Config, jwt: DecodedJwt, now: int, more: nat, doubles: Doubles)
    requires NoCustom(cfg) && cfg.defaultLeeway <= more && Accepts(cfg, jwt, now, doubles)
    ensures Accepts(cfg.(defaultLeeway := more), jwt, now, doubles)
  {
    hide Run;
    forall k | k in cfg.claims ensures Run(cfg.claims[k], Context(now, jwt, more, doubles), k).Pass? {
      CheckLeeway(cfg.claims[k], Context(now, jwt, cfg.defaultLeeway, doubles), more, k);
    }
  }

  /** The most seconds whose ticks an int64 can count. */
  const MAX_SECONDS: int := 9_223_372_036

  /** The source computes these limits in 64-bit ticks. None of them overflows exactly when the date,
      with the leeway on either side, is at most that far from the epoch. */
  lemma LimitsFitIff(date: int, leeway: nat)
    ensures IsInt64(date * TICKS) && IsInt64(leeway * TICKS) && IsInt64((date + leeway) * TICKS) && IsInt64((date - leeway) * TICKS)
      <==> -MAX_SECONDS <= date - leeway && date + leeway <= MAX_SECONDS
  {
  }

  predicate DefaultDatesOnly(cfg: Config) {
    "exp" in cfg.claims && "iat" in cfg.claims && "nbf" in cfg.claims &&
    cfg.claims["exp"].DefaultExp? && cfg.claims["iat"].DefaultIat? && cfg.claims["nbf"].DefaultNbf? &&
    forall k | k in cfg.claims && k != "exp" && k != "iat" && k != "nbf" ::
      cfg.claims[k].Equals? || cfg.claims[k].IsSubset?
  }

  lemma TimelessCheck(check: Check, ctx: Context, now: int, key: Bytes)
    requires check.Equals? || check.IsSubset?
    ensures Run(check, ctx.(now := now), key) == Run(check, ctx, key)
  {
    hide JsonText.Serialize;
  }

  /** With the default date checks, a token that is accepted at some time is accepted at exactly the
      times from the later of `iat` and `nbf` less the leeway up to `exp` plus the leeway, both ends
      included. */
  lemma AcceptedWindow(cfg: Config, jwt: DecodedJwt, t: int, now: int, doubles: Doubles)
    requires DefaultDatesOnly(cfg) && Accepts(cfg, jwt, t, doubles)
    ensures Accepts(cfg, jwt, now, doubles) <==> InWindow(jwt, cfg.defaultLeeway, now, doubles)
  {
    hide Run, EndHolds, StartHolds;
    var ctx := Context(now, jwt, cfg.defaultLeeway, doubles);
    DefaultChecks(ctx);
    if InWindow(jwt, cfg.defaultLeeway, now, doubles) {
      forall k | k in cfg.claims ensures Run(cfg.claims[k], ctx, k).Pass? {
        if k != "exp" && k != "iat" && k != "nbf" {
          TimelessCheck(cfg.claims[k], Context(t, jwt, cfg.defaultLeeway, doubles), now, k);
        }
      }
    }
  }

  /** A call that leaves the date checks as they were and adds none under another name. */
  predicate KeepsDefaultDates(call: Call) {
    var r := Registers(call);
    r.Some? ==> r.value.0 !in {"exp", "iat", "nbf"} && (r.value.1.Equals? || r.value.1.IsSubset?)
  }

  lemma {:induction false} DefaultDatesStay(calls: seq<Call>)
    requires forall i | 0 <= i < |calls| :: KeepsDefaultDates(calls[i])
    ensures DefaultDatesOnly(ConfigureAll(calls))
    decreases |calls|
  {
    if calls != [] {
      var n := |calls| - 1;
      DefaultDatesStay(calls[..n]);
      assert KeepsDefaultDates(calls[n]);
    }
  }

  /** The same window after any calls that leave the date checks alone, and it is the last leeway that
      counts. So accepted times are an interval, and a larger leeway contains the smaller one's. */
  lemma WindowAfterCalls(calls: seq<Call>, jwt: DecodedJwt, t: int, now: int, doubles: Doubles)
    requires forall i | 0 <= i < |calls| :: KeepsDefaultDates(calls[i])
    requires Accepts(ConfigureAll(calls), jwt, t, doubles)
    ensures Accepts(ConfigureAll(calls), jwt, now, doubles) <==> InWindow(jwt, LastLeeway(calls), now, doubles)
  {
    hide Accepts, InWindow, KeepsDefaultDates, DefaultDatesOnly;
    DefaultDatesStay(calls);
    ConfigIsLastCalls(calls, []);
    AcceptedWindow(ConfigureAll(calls), jwt, t, now, doubles);
  }
}
