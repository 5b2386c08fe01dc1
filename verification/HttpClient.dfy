/** `http_client::get_json`: answer from the cache, or fetch, parse and store. The transfer itself is
    an input: whether it went through, its status, its body, and its header lines. */
module HttpClient {
  import opened ByteStrings
  import opened JsonValue
  import opened JsonGrammar
  import JsonParser
  import JsonLocality
  import opened HttpCache

  /** `ages` has one entry for each header line in the order of their arrival: the max-age that the
      regular expression finds in it. */
  datatype Transfer = TransferFailed | Response(status: int, body: Bytes, ages: seq<Option<int>>)

  /** What `header_callback` has left behind when the transfer ends: the last line decides. */
  function MaxAge(ages: seq<Option<int>>): Option<int> {
    if ages == [] then None else ages[|ages| - 1]
  }

  datatype JsonResult = Json(value: Value) | RequestFailed

  const HTTP_OK: int := 200

  predicate Stores(maxAge: Option<int>) {
    maxAge.Some? && maxAge.value > 0
  }

  /** Behind a cache miss. */
  function FetchSpec(m: Contents, attached: bool, url: Bytes, transfer: Transfer, now: int): (Contents, JsonResult) {
    if transfer.TransferFailed? || transfer.status != HTTP_OK then (m, RequestFailed)
    else
      match Parse(transfer.body)
      case None => (m, RequestFailed)
      case Some(v) =>
        var age := MaxAge(transfer.ages);
        (if attached && Stores(age) then PutSpec(m, url, transfer.body, age.value, now) else m, Json(v))
  }

  /** A cached text that parses is the answer. */
  function LookupSpec(m: Contents, attached: bool, url: Bytes, now: int): (Contents, Option<Value>) {
    if !attached then (m, None)
    else
      var r := GetSpec(m, url, now);
      (r.0, if r.1.Some? then Parse(r.1.value) else None)
  }

  /** `get_json`: the cache is consulted at `t1`, and written, if at all, at `t2`. */
  function GetJsonSpec(m: Contents, attached: bool, url: Bytes, t1: int, transfer: Transfer, t2: int): (Contents, JsonResult) {
    var r := LookupSpec(m, attached, url, t1);
    if r.1.Some? then (r.0, Json(r.1.value)) else FetchSpec(r.0, attached, url, transfer, t2)
  }

  /** The cache has a text for the URL that has not expired and parses to `v`. */
  predicate Hit(m: Contents, attached: bool, url: Bytes, t: int, v: Value) {
    attached && |url| <= 511 && CStr(url) in m && t < m[CStr(url)].expiry && Parse(m[CStr(url)].text) == Some(v)
  }

  /** A response with status 200 and a body that parses to `v`. */
  predicate Answers(transfer: Transfer, v: Value) {
    transfer.Response? && transfer.status == 200 && Parse(transfer.body) == Some(v)
  }

  /** What the call returns, in every case: the cached value, or behind a miss the value of the body,
      whatever the max-age says and whether or not there is a cache. Everything else fails. */
  lemma AnswerExact(m: Contents, attached: bool, url: Bytes, t1: int, transfer: Transfer, t2: int, v: Value)
    ensures GetJsonSpec(m, attached, url, t1, transfer, t2).1 == Json(v) <==>
      Hit(m, attached, url, t1, v) || ((forall u :: !Hit(m, attached, url, t1, u)) && Answers(transfer, v))
  {
    hide CStr, Parse, PutSpec;
    var r := LookupSpec(m, attached, url, t1).1;
    assert r.Some? ==> Hit(m, attached, url, t1, r.value);
  }

  function LastAge(ages: seq<Option<int>>): int
    requires ages != [] && ages[|ages| - 1].Some?
  {
    ages[|ages| - 1].value
  }

  /** What a fetched body needs to get into the cache: the last header line gives a positive max-age,
      and the URL and the body fit. */
  predicate Cacheable(attached: bool, url: Bytes, transfer: Transfer) {
    attached && transfer.Response? && transfer.ages != [] &&
    transfer.ages[|transfer.ages| - 1].Some? && LastAge(transfer.ages) > 0 &&
    |url| <= 511 && |transfer.body| <= 8191
  }

  /** What the call leaves in the cache: behind a miss that is answered, the cacheable body and its
      expiry; otherwise what was there, less the entry of this URL if it had expired. */
  lemma CacheExact(m: Contents, attached: bool, url: Bytes, t1: int, transfer: Transfer, t2: int, k: Bytes, c: Cached)
    ensures
      var after := GetJsonSpec(m, attached, url, t1, transfer, t2).0;
      var fetches := (forall u :: !Hit(m, attached, url, t1, u)) && (exists v :: Answers(transfer, v));
      k in after && after[k] == c <==>
        if k == CStr(url) && fetches && Cacheable(attached, url, transfer)
        then c == Cached(CStr(transfer.body), t2 + LastAge(transfer.ages))
        else k in m && m[k] == c && !(k == CStr(url) && attached && |url| <= 511 && c.expiry <= t1)
  {
    hide CStr, Parse;
    var r := LookupSpec(m, attached, url, t1).1;
    assert r.Some? ==> Hit(m, attached, url, t1, r.value);
    if transfer.Response? && Parse(transfer.body).Some? {
      assert transfer.status == 200 ==> Answers(transfer, Parse(transfer.body).value);
    }
  }

  /** So once a call behind a miss has been answered with a cacheable body, every later call for the
      URL until its expiry gives the same value from the cache alone, whatever the network would do,
      and leaves the cache as it is. */
  lemma StoredThenServed(m: Contents, url: Bytes, t1: int, transfer: Transfer, t2: int, v: Value, now: int, other: Transfer, t3: int)
    requires (forall u :: !Hit(m, true, url, t1, u)) && Answers(transfer, v) && Cacheable(true, url, transfer)
    requires now < t2 + LastAge(transfer.ages)
    ensures
      var after := GetJsonSpec(m, true, url, t1, transfer, t2).0;
      GetJsonSpec(after, true, url, now, other, t3) == (after, Json(v))
  {
    hide CStr, Parse;
    JsonLocality.CutAtNul(transfer.body);
    var key, c := CStr(url), Cached(CStr(transfer.body), t2 + LastAge(transfer.ages));
    CacheExact(m, true, url, t1, transfer, t2, key, c);
  }

  /** A last header line without a max-age, such as the blank one that ends the headers, keeps the
      answer out of the cache, whatever the lines in front of it say. */
  lemma LastLineDecides(m: Contents, attached: bool, url: Bytes, t1: int, status: int, body: Bytes, ages: seq<Option<int>>, t2: int)
    ensures
      var transfer := Response(status, body, ages + [None]);
      GetJsonSpec(m, attached, url, t1, transfer, t2).0 == LookupSpec(m, attached, url, t1).0
    ensures
      GetJsonSpec(m, attached, url, t1, Response(status, body, ages + [None]), t2).1
        == GetJsonSpec(m, attached, url, t1, Response(status, body, ages), t2).1
  {
    hide CStr, Parse, GetSpec, PutSpec;
  }

  class Client {
    var lastMaxAge: Option<int>

    constructor ()
    {
      lastMaxAge := None;
    }

    /** `header_callback`, for one line: it overwrites what an earlier line has given. */
    method HeaderCallback(age: Option<int>)
      modifies this
      ensures lastMaxAge == age
    {
      lastMaxAge := age;
    }

    /** The header lines of one transfer. */
    method ReceiveHeaders(ages: seq<Option<int>>)
      modifies this
      ensures lastMaxAge == if ages == [] then old(lastMaxAge) else ages[|ages| - 1]
    {
      for i := 0 to |ages|
        invariant lastMaxAge == if i == 0 then old(lastMaxAge) else ages[i - 1]
      {
        HeaderCallback(ages[i]);
      }
    }

    method GetJson(cache: Cache, url: Bytes, t1: int, transfer: Transfer, t2: int) returns (r: JsonResult)
      requires cache.Valid() && this !in cache.Repr
      modifies this, cache.Repr
      ensures cache.Valid() && fresh(cache.Repr - old(cache.Repr)) && cache.attached == old(cache.attached)
      ensures (cache.View(), r) == GetJsonSpec(old(cache.View()), old(cache.attached), url, t1, transfer, t2)
    {
      hide ValueFrom, CStr, Parse, GetSpec, PutSpec, Cache.Valid, Cache.View, Cache.Owned, Entry.Ok, Entry.Holds;
      var cached := cache.Get(url, t1);
      if cached.Some? {
        var cachedOk, cachedValue := JsonParser.ParseText(cached.value);
        if cachedOk {
          return Json(cachedValue);
        }
      }
      lastMaxAge := None;
      if transfer.TransferFailed? {
        return RequestFailed;
      }
      ReceiveHeaders(transfer.ages);
      if transfer.status != HTTP_OK {
        return RequestFailed;
      }
      var ok, value := JsonParser.ParseText(transfer.body);
      if !ok {
        return RequestFailed;
      }
      if lastMaxAge.Some? && lastMaxAge.value > 0 {
        var _ := cache.Put(url, transfer.body, lastMaxAge.value, t2);
      }
      return Json(value);
    }
  }

  // ----- runs of any number of clients on one cache -----

  /** A call of `get_json` is a lookup, perhaps followed by a fetch; those of different backends
      interleave in any order. */
  datatype Event = Lookup(url: Bytes, now: int) | Fetch(url: Bytes, transfer: Transfer, now: int)

  /** A fetch that succeeded, with what its body parsed to, and whether the cache took it. */
  datatype Fetched = Fetched(url: Bytes, body: Bytes, value: Value, maxAge: Option<int>, time: int, stored: bool)

  datatype World = World(cache: Contents, log: seq<Fetched>)

  function StepEvent(w: World, e: Event): World {
    match e
    case Lookup(url, now) => w.(cache := LookupSpec(w.cache, true, url, now).0)
    case Fetch(url, transfer, now) =>
      var r := FetchSpec(w.cache, true, url, transfer, now);
      if r.1.RequestFailed? then w
      else
        World(r.0, w.log + [Fetched(CStr(url), transfer.body, r.1.value, MaxAge(transfer.ages), now,
          Stores(MaxAge(transfer.ages)) && PutAccepted(url, transfer.body, MaxAge(transfer.ages).value))])
  }

  function RunEvents(events: seq<Event>): World {
    if events == [] then World(map[], []) else StepEvent(RunEvents(events[..|events| - 1]), events[|events| - 1])
  }

  /** The last fetch of this URL that the cache took. */
  function LastStored(log: seq<Fetched>, url: Bytes): (r: Option<nat>)
    ensures r.Some? ==> r.value < |log| && log[r.value].url == url && log[r.value].stored
  {
    if log == [] then None
    else if log[|log| - 1].stored && log[|log| - 1].url == url then Some(|log| - 1)
    else LastStored(log[..|log| - 1], url)
  }

  /** Every cached text is the body of the last stored fetch of its URL, up to its first NUL. */
  predicate CacheFromLog(w: World) {
    (forall i | 0 <= i < |w.log| :: Parse(w.log[i].body) == Some(w.log[i].value) && (w.log[i].stored ==> w.log[i].maxAge.Some?)) &&
    (forall k | k in w.cache ::
      var i := LastStored(w.log, k);
      i.Some? && w.cache[k].text == CStr(w.log[i.value].body) && w.cache[k].expiry == w.log[i.value].time + w.log[i.value].maxAge.value)
  }

  lemma LastStoredGrows(log: seq<Fetched>, f: Fetched, url: Bytes)
    ensures LastStored(log + [f], url) == if f.stored && f.url == url then Some(|log|) else LastStored(log, url)
  {
    assert (log + [f])[..|log|] == log;
  }

  lemma StepKeeps(w: World, e: Event)
    requires CacheFromLog(w)
    ensures CacheFromLog(StepEvent(w, e))
  {
    hide CStr, Parse, LastStored;
    var v := StepEvent(w, e);
    if e.Fetch? && v.log != w.log {
      var f := v.log[|w.log|];
      assert v.log == w.log + [f];
      forall k | k in v.cache ensures
        var i := LastStored(v.log, k);
        i.Some? && v.cache[k].text == CStr(v.log[i.value].body) && v.cache[k].expiry == v.log[i.value].time + v.log[i.value].maxAge.value
      {
        LastStoredGrows(w.log, f, k);
      }
    }
  }

  lemma {:induction false} RunKeeps(events: seq<Event>)
    ensures CacheFromLog(RunEvents(events))
    decreases |events|
  {
    hide CacheFromLog, StepEvent;
    if events != [] {
      RunKeeps(events[..|events| - 1]);
      StepKeeps(RunEvents(events[..|events| - 1]), events[|events| - 1]);
    } else {
      EmptyIsFromLog();
    }
  }

  lemma EmptyIsFromLog()
    ensures CacheFromLog(World(map[], []))
  {
  }

  /** In every run, whatever the cache returns for a URL parses (so the branch that refetches after a
      cached text fails to parse is never taken), and the value is the one that the last stored fetch
      of that URL gave when its full body was parsed, at a time before that fetch's expiry. The body
      may contain NUL bytes, although only what precedes the first is kept. */
  lemma CachedIsFetched(events: seq<Event>, url: Bytes, now: int)
    requires GetSpec(RunEvents(events).cache, url, now).1.Some?
    ensures var w := RunEvents(events);
      var i := LastStored(w.log, CStr(url));
      i.Some? &&
      LookupSpec(w.cache, true, url, now).1 == Some(w.log[i.value].value) &&
      Parse(w.log[i.value].body) == Some(w.log[i.value].value) &&
      w.log[i.value].maxAge.Some? && now < w.log[i.value].time + w.log[i.value].maxAge.value
  {
    hide CStr, Parse, LastStored, RunEvents;
    RunKeeps(events);
    var w := RunEvents(events);
    var i := LastStored(w.log, CStr(url)).value;
    JsonLocality.CutAtNul(w.log[i].body);
  }

  /** `v` is what the body of `transfer` parsed to, or what the body of an earlier fetch of this URL
      did that has not expired at `t`. */
  ghost predicate RestsOnFetch(v: Value, url: Bytes, log: seq<Fetched>, t: int, transfer: Transfer) {
    Answers(transfer, v) ||
    (exists i | 0 <= i < |log| :: log[i].url == CStr(url) && Parse(log[i].body) == Some(v) && log[i].maxAge.Some? &&
      t < log[i].time + log[i].maxAge.value)
  }

  /** For a whole call, attached or not: every value it returns is what this call's own transfer parsed
      to, or what an unexpired earlier fetch of the URL did; and it fails only when its own transfer
      gives no value. */
  lemma GetJsonAnswers(events: seq<Event>, attached: bool, url: Bytes, t1: int, transfer: Transfer, t2: int)
    ensures var w := RunEvents(events);
      match GetJsonSpec(w.cache, attached, url, t1, transfer, t2).1
      case RequestFailed => forall v :: !Answers(transfer, v)
      case Json(v) => RestsOnFetch(v, url, w.log, t1, transfer)
  {
    hide CStr, Parse, RunEvents;
    var w := RunEvents(events);
    if attached && GetSpec(w.cache, url, t1).1.Some? {
      CachedIsFetched(events, url, t1);
      var i := LastStored(w.log, CStr(url)).value;
      assert w.log[i].url == CStr(url);
    }
  }
}
