/** The shared cache of HTTP responses: fixed char arrays in a hash table keyed by C strings. Each
    operation is taken as atomic, and the clock reading it uses is an argument. */
module HttpCache {
  import opened ByteStrings

  const URL_SIZE: nat := 512
  const JSON_SIZE: nat := 8192
  const MAX_URL_LEN: nat := URL_SIZE - 1
  const MAX_JSON_LEN: nat := JSON_SIZE - 1

  // ----- contents -----

  datatype Cached = Cached(text: Bytes, expiry: int)

  /** What the table holds: a text and an expiry time for each URL, cut at its first NUL. */
  type Contents = map<Bytes, Cached>

  predicate PutAccepted(url: Bytes, json: Bytes, maxAge: int) {
    |url| <= MAX_URL_LEN && |json| <= MAX_JSON_LEN && maxAge > 0
  }

  function PutSpec(m: Contents, url: Bytes, json: Bytes, maxAge: int, now: int): Contents {
    if PutAccepted(url, json, maxAge) then m[CStr(url) := Cached(CStr(json), now + maxAge)] else m
  }

  /** `get`: an expired entry is erased on the way. */
  function GetSpec(m: Contents, url: Bytes, now: int): (Contents, Option<Bytes>) {
    if |url| > MAX_URL_LEN || CStr(url) !in m then (m, None)
    else if now >= m[CStr(url)].expiry then (m - {CStr(url)}, None)
    else (m, Some(m[CStr(url)].text))
  }

  // ----- the table -----

  /** `strncpy(a, src.c_str(), n)`: the C string, cut at `n`, and NULs up to `n`. */
  function Copied(src: Bytes, n: nat): (r: Bytes)
    ensures |r| == n
  {
    var c := CStr(src);
    seq(n, i requires 0 <= i < n => if i < |c| then c[i] else NUL)
  }

  method StrNCpy(a: array<byte>, src: Bytes, n: nat)
    requires n <= a.Length
    modifies a
    ensures a[..n] == Copied(src, n) && a[n..] == old(a[n..])
  {
    var c := CStr(src);
    for i := 0 to n
      invariant a[..i] == Copied(src, n)[..i] && a[n..] == old(a[n..])
    {
      a[i] := if i < |c| then c[i] else NUL;
      assert a[..i + 1] == a[..i] + [a[i]];
      assert Copied(src, n)[..i + 1] == Copied(src, n)[..i] + [Copied(src, n)[i]];
    }
    assert Copied(src, n)[..n] == Copied(src, n);
  }

  /** A string that fits is read back from its array, whatever the array held before. */
  lemma CopiedReadsBack(src: Bytes, n: nat, tail: Bytes)
    requires |CStr(src)| <= n
    ensures CStr(Copied(src, n) + [NUL] + tail) == CStr(src)
  {
    var c := CStr(src);
    var whole := Copied(src, n) + [NUL] + tail;
    assert whole == c + [NUL] + whole[|c| + 1..];
    CStrOfTerminated(c, whole[|c| + 1..]);
  }

  /** `http_cache_entry`. */
  class Entry {
    const url: array<byte>
    const json: array<byte>
    var expiration: int

    /** What `dshash_find_or_insert` hands out for a new key: the key, and otherwise garbage. */
    constructor (key: Bytes)
      requires |CStr(key)| < URL_SIZE
      ensures fresh(url) && fresh(json) && url != json && url.Length == URL_SIZE && json.Length == JSON_SIZE
    {
      url := new byte[URL_SIZE];
      json := new byte[JSON_SIZE];
      new;
      StrNCpy(url, key, |CStr(key)| + 1);
    }

    predicate IsExpired(now: int)
      reads this
    {
      now >= expiration
    }

    /** Both arrays have their size and end in NUL, and the first holds the key. */
    ghost predicate Ok(key: Bytes)
      reads this, url, json
    {
      url.Length == URL_SIZE && json.Length == JSON_SIZE &&
      url[MAX_URL_LEN] == NUL && json[MAX_JSON_LEN] == NUL && CStr(url[..]) == key
    }

    /** Writing to `other` leaves this entry alone. */
    ghost predicate Apart(other: Entry) {
      this != other && url != other.url && url != other.json && json != other.url && json != other.json
    }

    /** What the entry holds, read as `get` reads it. */
    ghost function Holds(): Cached
      reads this, json
    {
      Cached(CStr(json[..]), expiration)
    }

    /** The writes of `put`. */
    method Fill(u: Bytes, text: Bytes, expiry: int)
      requires url != json && url.Length == URL_SIZE && json.Length == JSON_SIZE
      requires |CStr(u)| <= MAX_URL_LEN && |CStr(text)| <= MAX_JSON_LEN
      modifies this, url, json
      ensures Ok(CStr(u)) && Holds() == Cached(CStr(text), expiry)
    {
      StrNCpy(url, u, MAX_URL_LEN);
      url[MAX_URL_LEN] := NUL;
      assert url[..] == Copied(u, MAX_URL_LEN) + [NUL] + [];
      CopiedReadsBack(u, MAX_URL_LEN, []);
      StrNCpy(json, text, MAX_JSON_LEN);
      json[MAX_JSON_LEN] := NUL;
      assert json[..] == Copied(text, MAX_JSON_LEN) + [NUL] + [];
      CopiedReadsBack(text, MAX_JSON_LEN, []);
      expiration := expiry;
    }
  }

  class Cache {
    var attached: bool
    var table: map<Bytes, Entry>
    ghost var Repr: set<object>

    /** Everything the table refers to is its own, and no two entries share an array. */
    ghost predicate Owned()
      reads this
    {
      this in Repr &&
      (forall k | k in table :: table[k] in Repr && table[k].url in Repr && table[k].json in Repr
        && table[k].url.Length == URL_SIZE && table[k].json.Length == JSON_SIZE) &&
      (forall j, k | j in table && k in table && j != k ::
        table[j] != table[k] && table[j].url != table[k].url && table[j].json != table[k].json) &&
      (forall j, k | j in table && k in table :: table[j].url != table[k].json)
    }

    ghost predicate Valid()
      reads this, Repr
      ensures Valid() ==> this in Repr
    {
      Owned() && forall k | k in table :: table[k].Ok(k)
    }

    ghost function View(): Contents
      requires Valid()
      reads this, Repr
    {
      map k | k in table :: table[k].Holds()
    }

    constructor ()
      ensures Valid() && fresh(Repr) && !attached && View() == map[]
    {
      attached, table, Repr := false, map[], {this};
    }

    method Attach()
      requires Valid()
      modifies this
      ensures Valid() && attached && Repr == old(Repr) && View() == old(View())
    {
      attached := true;
    }

    /** `detach`: the table stays, but this process no longer uses it. */
    method Detach()
      requires Valid()
      modifies this
      ensures Valid() && !attached && Repr == old(Repr) && View() == old(View())
    {
      attached := false;
    }

    method Get(url: Bytes, now: int) returns (r: Option<Bytes>)
      requires Valid()
      modifies this
      ensures Valid() && Repr == old(Repr) && attached == old(attached)
      ensures (View(), r) == if attached then GetSpec(old(View()), url, now) else (old(View()), None)
    {
      hide CStr, Owned, Entry.Ok;
      if !attached || |url| > MAX_URL_LEN {
        return None;
      }
      var key := CStr(url);
      if key !in table {
        return None;
      }
      var entry := table[key];
      if entry.IsExpired(now) {
        Erase(key);
        return None;
      }
      return Some(CStr(entry.json[..]));
    }

    /** `dshash_delete_key`. */
    method Erase(key: Bytes)
      requires Valid()
      modifies this
      ensures Valid() && Repr == old(Repr) && attached == old(attached) && View() == old(View()) - {key}
    {
      hide CStr, Entry.Ok, Entry.Holds;
      table := table - {key};
    }

    method Put(url: Bytes, json: Bytes, maxAge: int, now: int) returns (ok: bool)
      requires Valid()
      modifies Repr
      ensures Valid() && fresh(Repr - old(Repr)) && attached == old(attached)
      ensures ok == (attached && PutAccepted(url, json, maxAge))
      ensures View() == if attached then PutSpec(old(View()), url, json, maxAge, now) else old(View())
    {
      hide CStr, Owned, Entry.Ok, Entry.Holds;
      if !attached || |url| > MAX_URL_LEN || |json| > MAX_JSON_LEN || maxAge <= 0 {
        return false;
      }
      Store(url, json, now + maxAge);
      return true;
    }

    /** `put` behind its guards. */
    method Store(url: Bytes, json: Bytes, expiry: int)
      requires Valid() && |url| <= MAX_URL_LEN && |json| <= MAX_JSON_LEN
      modifies Repr
      ensures Valid() && fresh(Repr - old(Repr)) && attached == old(attached)
      ensures View() == old(View())[CStr(url) := Cached(CStr(json), expiry)]
    {
      hide CStr, Owned, Entry.Ok, Entry.Holds;
      var key := CStr(url);
      ghost var before := View();
      var entry := FindOrInsert(key);
      entry.Fill(url, json, expiry);
      assert View() == before[key := Cached(CStr(json), expiry)];
    }

    /** `dshash_find_or_insert`. */
    method FindOrInsert(key: Bytes) returns (entry: Entry)
      requires Valid() && NUL !in key && |key| <= MAX_URL_LEN
      modifies this
      ensures fresh(Repr - old(Repr)) && Owned() && attached == old(attached)
      ensures table.Keys == old(table).Keys + {key} && table[key] == entry
      ensures entry in Repr && entry.url in Repr && entry.json in Repr && entry.url != entry.json
      ensures entry.url.Length == URL_SIZE && entry.json.Length == JSON_SIZE
      ensures forall k | k in table && k != key :: table[k].Apart(entry)
      ensures forall k | k in table && k != key :: table[k].Ok(k) && table[k].Holds() == old(View())[k]
    {
      hide CStr, Entry.Ok, Entry.Holds;
      if key in table {
        entry := table[key];
      } else {
        assert |CStr(key)| < URL_SIZE;
        entry := new Entry(key);
        table := table[key := entry];
        Repr := Repr + {entry, entry.url, entry.json};
      }
    }
  }

  // ----- refinement of an expiring map -----

  datatype Op = Put(url: Bytes, json: Bytes, maxAge: int) | Get(url: Bytes)

  datatype Answer = Stored(ok: bool) | Found(text: Option<Bytes>)

  /** Operations with the clock reading each one uses. */
  type History = seq<(Op, int)>

  function StepSpec(m: Contents, op: Op, now: int): (Contents, Answer) {
    match op
    case Put(url, json, maxAge) => (PutSpec(m, url, json, maxAge, now), Stored(PutAccepted(url, json, maxAge)))
    case Get(url) => var r := GetSpec(m, url, now); (r.0, Found(r.1))
  }

  /** The simple map: it never erases anything, and a lookup compares the clock with the expiry. */
  function StepSimple(m: Contents, op: Op, now: int): (Contents, Answer) {
    match op
    case Put(url, json, maxAge) => (PutSpec(m, url, json, maxAge, now), Stored(PutAccepted(url, json, maxAge)))
    case Get(url) =>
      (m, Found(if |url| <= MAX_URL_LEN && CStr(url) in m && now < m[CStr(url)].expiry then Some(m[CStr(url)].text) else None))
  }

  /** The table's contents after a history that starts with nothing, and the answers on the way. */
  function RunSpec(ops: History): (r: (Contents, seq<Answer>))
    ensures |r.1| == |ops|
    decreases |ops|
  {
    if ops == [] then (map[], [])
    else
      var before, last := RunSpec(ops[..|ops| - 1]), ops[|ops| - 1];
      var r := StepSpec(before.0, last.0, last.1);
      (r.0, before.1 + [r.1])
  }

  function RunSimple(ops: History): (r: (Contents, seq<Answer>))
    ensures |r.1| == |ops|
    decreases |ops|
  {
    if ops == [] then (map[], [])
    else
      var before, last := RunSimple(ops[..|ops| - 1]), ops[|ops| - 1];
      var r := StepSimple(before.0, last.0, last.1);
      (r.0, before.1 + [r.1])
  }

  /** A put is taken exactly when the URL has at most 511 bytes, the text at most 8191, and the age is
      positive. What was taken comes back until it expires, byte for byte unless it holds a NUL; no
      other URL is affected, and nothing is when the put is refused. */
  lemma GetAfterPut(m: Contents, url: Bytes, json: Bytes, maxAge: int, t: int, other: Bytes, now: int)
    ensures
      var r := GetSpec(PutSpec(m, url, json, maxAge, t), other, now).1;
      if |url| <= 511 && |json| <= 8191 && maxAge > 0 then
        if |other| <= 511 && CStr(other) == CStr(url)
        then r == (if now < t + maxAge then Some(CStr(json)) else None) && (NUL !in json ==> CStr(json) == json)
        else r == GetSpec(m, other, now).1
      else PutSpec(m, url, json, maxAge, t) == m
  {
    hide CStr;
    if NUL !in json {
      CStrOfNulFree(json);
    }
  }

  /** What a lookup finds, and that it takes out what it finds expired and nothing else. */
  lemma GetMeaning(m: Contents, url: Bytes, now: int)
    ensures
      var (after, found) := GetSpec(m, url, now);
      (forall text :: found == Some(text) <==>
        |url| <= 511 && CStr(url) in m && now < m[CStr(url)].expiry && m[CStr(url)].text == text) &&
      (forall k :: k in after <==> k in m && !(k == CStr(url) && |url| <= 511 && m[k].expiry <= now)) &&
      (forall k | k in after :: k in m && after[k] == m[k])
  {
    hide CStr;
  }

  predicate Puts(e: (Op, int), key: Bytes) {
    e.0.Put? && PutAccepted(e.0.url, e.0.json, e.0.maxAge) && CStr(e.0.url) == key
  }

  predicate Gets(e: (Op, int), key: Bytes) {
    e.0.Get? && |e.0.url| <= MAX_URL_LEN && CStr(e.0.url) == key
  }

  function Expiry(e: (Op, int)): int
    requires e.0.Put?
  {
    e.1 + e.0.maxAge
  }

  /** `p` is the last accepted put of the key before `n`. */
  predicate LastPut(ops: History, key: Bytes, p: nat, n: nat) {
    p < n <= |ops| && Puts(ops[p], key) && forall q | p < q < n :: !Puts(ops[q], key)
  }

  /** Between that put and `n`, a lookup has found the entry expired. */
  predicate FoundExpired(ops: History, key: Bytes, p: nat, n: nat)
    requires p < n <= |ops| && ops[p].0.Put?
  {
    exists i | p < i < n :: Gets(ops[i], key) && Expiry(ops[p]) <= ops[i].1
  }

  /** The lookup at `n` comes, by its clock, before the expiry of an entry that an earlier lookup has
      found expired. */
  predicate Revives(ops: History, p: nat, n: nat)
    requires n < |ops|
  {
    ops[n].0.Get? && Gets(ops[n], CStr(ops[n].0.url)) &&
    LastPut(ops, CStr(ops[n].0.url), p, n) && FoundExpired(ops, CStr(ops[n].0.url), p, n) && ops[n].1 < Expiry(ops[p])
  }

  predicate NoRevival(ops: History) {
    forall p, n | 0 <= p < n < |ops| :: !Revives(ops, p, n)
  }

  /** The simple map holds the last accepted put of each key, and nothing else. */
  lemma {:induction false} SimpleIs(ops: History, key: Bytes)
    ensures key in RunSimple(ops).0 <==> exists p: nat :: LastPut(ops, key, p, |ops|)
    ensures forall p: nat | LastPut(ops, key, p, |ops|) ::
      key in RunSimple(ops).0 && RunSimple(ops).0[key] == Cached(CStr(ops[p].0.json), Expiry(ops[p]))
    decreases |ops|
  {
    hide CStr;
    if ops != [] {
      var n := |ops| - 1;
      SimpleIs(ops[..n], key);
      forall p: nat ensures LastPut(ops, key, p, n + 1) <==> if p == n then Puts(ops[n], key) else LastPut(ops[..n], key, p, n) && !Puts(ops[n], key) {
        LastPutStep(ops, key, p);
      }
      if Puts(ops[n], key) {
        assert LastPut(ops, key, n, n + 1);
      }
    }
  }

  lemma LastPutStep(ops: History, key: Bytes, p: nat)
    requires ops != []
    ensures var n := |ops| - 1;
      LastPut(ops, key, p, n + 1) <==>
        if p == n then Puts(ops[n], key) else LastPut(ops[..n], key, p, n) && !Puts(ops[n], key)
  {
    hide Puts;
    var n := |ops| - 1;
    if LastPut(ops[..n], key, p, n) {
      forall q | p < q < n ensures !Puts(ops[q], key) {
        assert ops[..n][q] == ops[q];
      }
    }
  }

  /** The table holds the same, less what a lookup has found expired. */
  lemma {:induction false} TableIs(ops: History, key: Bytes)
    ensures key in RunSpec(ops).0 <==> exists p: nat :: LastPut(ops, key, p, |ops|) && !FoundExpired(ops, key, p, |ops|)
    ensures forall p: nat | LastPut(ops, key, p, |ops|) && key in RunSpec(ops).0 ::
      RunSpec(ops).0[key] == Cached(CStr(ops[p].0.json), Expiry(ops[p]))
    decreases |ops|
  {
    hide CStr;
    if ops != [] {
      var n := |ops| - 1;
      TableIs(ops[..n], key);
      forall p: nat ensures LastPut(ops, key, p, n + 1) <==> if p == n then Puts(ops[n], key) else LastPut(ops[..n], key, p, n) && !Puts(ops[n], key) {
        LastPutStep(ops, key, p);
      }
      forall p: nat | p < n && ops[p].0.Put?
        ensures FoundExpired(ops, key, p, n + 1) <==>
          FoundExpired(ops[..n], key, p, n) || (Gets(ops[n], key) && Expiry(ops[p]) <= ops[n].1)
      {
        FoundExpiredStep(ops, key, p);
      }
      if Puts(ops[n], key) {
        assert LastPut(ops, key, n, n + 1) && !FoundExpired(ops, key, n, n + 1);
      }
    }
  }

  lemma FoundExpiredStep(ops: History, key: Bytes, p: nat)
    requires p < |ops| - 1 && ops[p].0.Put?
    ensures var n := |ops| - 1;
      FoundExpired(ops, key, p, n + 1) <==>
        FoundExpired(ops[..n], key, p, n) || (Gets(ops[n], key) && Expiry(ops[p]) <= ops[n].1)
  {
    hide Gets;
    var n := |ops| - 1;
    if FoundExpired(ops[..n], key, p, n) {
      var i :| p < i < n && Gets(ops[..n][i], key) && Expiry(ops[p]) <= ops[..n][i].1;
      assert ops[..n][i] == ops[i];
    }
    if FoundExpired(ops, key, p, n + 1) {
      var i :| p < i < n + 1 && Gets(ops[i], key) && Expiry(ops[p]) <= ops[i].1;
      assert i < n ==> ops[..n][i] == ops[i];
    }
  }

  lemma LastPutUnique(ops: History, key: Bytes, p: nat, q: nat, n: nat)
    requires LastPut(ops, key, p, n) && LastPut(ops, key, q, n)
    ensures p == q
  {
  }

  lemma PrefixFacts(ops: History, key: Bytes, p: nat, n: nat, m: nat)
    requires p < n <= m <= |ops|
    ensures LastPut(ops[..m], key, p, n) <==> LastPut(ops, key, p, n)
    ensures ops[p].0.Put? ==> (FoundExpired(ops[..m], key, p, n) <==> FoundExpired(ops, key, p, n))
  {
    hide Puts, Gets;
    var s := ops[..m];
    assert forall q | 0 <= q < m :: s[q] == ops[q];
    if ops[p].0.Put? && FoundExpired(ops, key, p, n) {
      var i :| p < i < n && Gets(ops[i], key) && Expiry(ops[p]) <= ops[i].1;
      assert Gets(s[i], key);
    }
  }

  /** The last answers differ exactly when the last operation revives an entry. */
  lemma LastAnswers(ops: History)
    requires ops != []
    ensures var n := |ops| - 1;
      StepSpec(RunSpec(ops[..n]).0, ops[n].0, ops[n].1).1 == StepSimple(RunSimple(ops[..n]).0, ops[n].0, ops[n].1).1 <==>
        forall p: nat | p < n :: !Revives(ops, p, n)
  {
    hide CStr, RunSpec, RunSimple, LastPut, FoundExpired, Puts;
    var n := |ops| - 1;
    if ops[n].0.Get? && |ops[n].0.url| <= MAX_URL_LEN {
      var key := CStr(ops[n].0.url);
      SimpleIs(ops[..n], key);
      TableIs(ops[..n], key);
      forall p: nat | p < n
        ensures LastPut(ops[..n], key, p, n) <==> LastPut(ops, key, p, n)
        ensures ops[p].0.Put? ==> (FoundExpired(ops[..n], key, p, n) <==> FoundExpired(ops, key, p, n))
      {
        PrefixFacts(ops, key, p, n, n);
      }
      if p: nat :| LastPut(ops[..n], key, p, n) {
        LastPutInside(ops[..n], key, p, n);
        forall q: nat | LastPut(ops[..n], key, q, n) ensures q == p {
          LastPutUnique(ops[..n], key, p, q, n);
        }
        assert Revives(ops, p, n) <==> FoundExpired(ops, key, p, n) && ops[n].1 < Expiry(ops[p]);
        forall q: nat | q < n && Revives(ops, q, n) ensures q == p {
          assert LastPut(ops, key, q, n);
        }
      } else {
        forall q: nat | q < n ensures !Revives(ops, q, n) {
          assert !LastPut(ops[..n], key, q, n);
        }
      }
    }
  }

  lemma LastPutInside(ops: History, key: Bytes, p: nat, n: nat)
    requires LastPut(ops, key, p, n)
    ensures p < n <= |ops| && ops[p].0.Put?
  {
  }

  lemma NoRevivalStep(ops: History)
    requires ops != []
    ensures var n := |ops| - 1;
      NoRevival(ops) <==> NoRevival(ops[..n]) && forall p: nat | p < n :: !Revives(ops, p, n)
  {
    hide LastPut, FoundExpired, Gets, Puts;
    var n := |ops| - 1;
    forall p: nat, m: nat | p < m < n ensures Revives(ops[..n], p, m) <==> Revives(ops, p, m) {
      assert ops[..n][m] == ops[m] && ops[..n][p] == ops[p];
      if ops[m].0.Get? {
        PrefixFacts(ops, CStr(ops[m].0.url), p, m, n);
        if LastPut(ops, CStr(ops[m].0.url), p, m) {
          LastPutInside(ops, CStr(ops[m].0.url), p, m);
        }
      }
    }
  }

  /** Exactly when erasing expired entries cannot be observed, whatever the clock does: no lookup
      comes before the expiry of an entry that an earlier one has found expired. */
  lemma {:induction false} ErasingIsUnobservable(ops: History)
    ensures RunSpec(ops).1 == RunSimple(ops).1 <==> NoRevival(ops)
    decreases |ops|
  {
    hide NoRevival, StepSpec, StepSimple, Revives;
    if ops == [] {
      NothingRevived(ops);
    } else {
      var n := |ops| - 1;
      ErasingIsUnobservable(ops[..n]);
      LastAnswers(ops);
      NoRevivalStep(ops);
      var a, b := RunSpec(ops).1, RunSimple(ops).1;
      assert a[..n] == RunSpec(ops[..n]).1 && b[..n] == RunSimple(ops[..n]).1;
      assert a == a[..n] + [a[n]] && b == b[..n] + [b[n]];
    }
  }

  lemma NothingRevived(ops: History)
    requires ops == []
    ensures NoRevival(ops)
  {
  }

  /** The same for the arrays: a cache that starts empty and attached answers a history as the simple
      map does if and only if nothing is revived. */
  method Replay(ops: History) returns (answers: seq<Answer>)
    ensures answers == RunSpec(ops).1
    ensures answers == RunSimple(ops).1 <==> NoRevival(ops)
  {
    hide CStr, Cache.Valid, Cache.View, GetSpec, PutSpec, RunSimple, NoRevival;
    var cache := new Cache();
    cache.Attach();
    answers := [];
    for i := 0 to |ops|
      invariant cache.Valid() && fresh(cache.Repr) && cache.attached
      invariant (cache.View(), answers) == RunSpec(ops[..i])
    {
      assert ops[..i + 1][..i] == ops[..i];
      match ops[i].0 {
        case Put(url, json, maxAge) =>
          var ok := cache.Put(url, json, maxAge, ops[i].1);
          answers := answers + [Stored(ok)];
        case Get(url) =>
          var text := cache.Get(url, ops[i].1);
          answers := answers + [Found(text)];
      }
    }
    assert ops[..|ops|] == ops;
    ErasingIsUnobservable(ops);
  }

  /** No clock reading is before an earlier one. */
  predicate ClockRuns(ops: History) {
    forall i, j | 0 <= i < j < |ops| :: ops[i].1 <= ops[j].1
  }

  /** In particular it cannot be observed with a clock that never runs back. */
  lemma RefinesExpiringMap(ops: History)
    requires ClockRuns(ops)
    ensures RunSpec(ops).1 == RunSimple(ops).1
  {
    hide RunSpec, RunSimple, LastPut, Gets, CStr;
    ErasingIsUnobservable(ops);
  }

  /** With one that does, it can: the entry is gone although the simple map would still serve it. */
  lemma ClockMustNotRunBack()
    ensures exists ops :: RunSpec(ops).1 != RunSimple(ops).1
  {
    hide CStr, RunSpec, RunSimple;
    var u: Bytes := "u";
    var ops := [(Put(u, u, 5), 0), (Get(u), 5), (Get(u), 1)];
    assert Gets(ops[1], CStr(u));
    assert FoundExpired(ops, CStr(u), 0, 2);
    assert Revives(ops, 0, 2);
    ErasingIsUnobservable(ops);
  }
}
