/** Scopes: how they are split, read from a token and compared (`parse_jwt_scopes`,
    `azure_scopes_match` and the end of `validate_token`). */
module Scopes {
  import opened ByteStrings
  import opened JsonValue
  import JsonText

  // ----- splitting at white space -----

  /** `isspace` in the C locale. */
  predicate IsSpace(c: byte) {
    c == ' ' || 9 <= c as int <= 13
  }

  lemma IsSpaceExact(c: byte)
    ensures IsSpace(c) <==> c as int in {0x09, 0x0a, 0x0b, 0x0c, 0x0d, 0x20}
  {
  }

  /** How many bytes `s` starts with that are no white space. */
  function WordSpan(s: Bytes): (n: nat)
    ensures n <= |s|
    ensures forall i | 0 <= i < n :: !IsSpace(s[i])
    ensures n < |s| ==> IsSpace(s[n])
  {
    if s == [] || IsSpace(s[0]) then 0 else 1 + WordSpan(s[1..])
  }

  /** What `std::istream_iterator<std::string>` yields, as the set it is collected into. */
  function Words(s: Bytes): set<Bytes>
    decreases |s|
  {
    if s == [] then {}
    else if IsSpace(s[0]) then Words(s[1..])
    else {s[..WordSpan(s)]} + Words(s[WordSpan(s)..])
  }

  /** `w` stands in `s` at `i`, with white space or an end of the text on both sides and none inside. */
  predicate WordAt(s: Bytes, w: Bytes, i: nat) {
    w != [] && OccursAt(s, w, i) && (forall j | 0 <= j < |w| :: !IsSpace(w[j])) &&
    (i == 0 || IsSpace(s[i - 1])) && (i + |w| == |s| || IsSpace(s[i + |w|]))
  }

  lemma WordBytes(s: Bytes, w: Bytes, i: nat)
    requires OccursAt(s, w, i)
    ensures forall j | 0 <= j < |w| :: s[i + j] == w[j]
    ensures w != [] ==> s[i] == w[0]
  {
    forall j | 0 <= j < |w| ensures s[i + j] == w[j] {
      assert s[i..i + |w|][j] == s[i + j];
    }
  }

  lemma WordAtShift(s: Bytes, w: Bytes, n: nat, i: nat)
    requires n <= |s| && n <= i && (n == 0 || i > n || IsSpace(s[n - 1]))
    ensures WordAt(s, w, i) ==> WordAt(s[n..], w, i - n)
    ensures WordAt(s[n..], w, i - n) && (i > n || n == 0 || IsSpace(s[n - 1])) ==> WordAt(s, w, i)
  {
    if OccursAt(s, w, i) || OccursAt(s[n..], w, i - n) {
      assert s[n..][i - n..i - n + |w|] == s[i..i + |w|];
    }
  }

  /** Splitting yields exactly the maximal words. */
  lemma {:induction false} WordsExact(s: Bytes, w: Bytes)
    ensures w in Words(s) <==> exists i: nat :: WordAt(s, w, i)
    decreases |s|
  {
    hide WordSpan;
    if s == [] {
    } else if IsSpace(s[0]) {
      WordsExact(s[1..], w);
      SpaceFirst(s, w);
    } else {
      WordsExact(s[WordSpan(s)..], w);
      WordFirst(s, w);
    }
  }

  lemma SpaceFirst(s: Bytes, w: Bytes)
    requires s != [] && IsSpace(s[0])
    ensures (exists i: nat :: WordAt(s, w, i)) <==> (exists i: nat :: WordAt(s[1..], w, i))
  {
    if i: nat :| WordAt(s, w, i) {
      WordBytes(s, w, i);
      assert i != 0;
      WordAtShift(s, w, 1, i);
    }
    if i: nat :| WordAt(s[1..], w, i) {
      WordAtShift(s, w, 1, i + 1);
    }
  }

  /** A word that stands in the text is its first run, or stands behind it. */
  lemma WordFound(s: Bytes, w: Bytes, i: nat)
    requires s != [] && !IsSpace(s[0]) && WordAt(s, w, i)
    ensures var n := WordSpan(s);
      w == s[..n] || (i > n && WordAt(s[n..], w, i - n))
  {
    hide WordAt;
    var n := WordSpan(s);
    if i == 0 {
      SameEnd(s, w, n);
    } else {
      NotInside(s, w, i, n);
      WordAtShift(s, w, n, i);
    }
  }

  lemma NotInside(s: Bytes, w: Bytes, i: nat, n: nat)
    requires WordAt(s, w, i) && i > 0 && n == WordSpan(s)
    ensures i > n
  {
    hide WordSpan;
    WordBytes(s, w, i);
  }

  /** And conversely. */
  lemma FirstIsWord(s: Bytes)
    requires s != [] && !IsSpace(s[0])
    ensures WordAt(s, s[..WordSpan(s)], 0)
  {
    var w := s[..WordSpan(s)];
    assert WordSpan(s) > 0;
    hide WordSpan;
    assert s[0..0 + |w|] == w;
  }

  lemma NotAtSpace(t: Bytes, w: Bytes, i: nat)
    requires WordAt(t, w, i) && IsSpace(t[0])
    ensures i > 0
  {
    WordBytes(t, w, i);
  }

  lemma LaterIsWord(s: Bytes, w: Bytes, i: nat)
    requires WordAt(s[WordSpan(s)..], w, i)
    ensures WordAt(s, w, i + WordSpan(s))
  {
    hide WordSpan;
    var n := WordSpan(s);
    NotAtSpace(s[n..], w, i);
    WordAtShift(s, w, n, i + n);
  }

  lemma WordFirst(s: Bytes, w: Bytes)
    requires s != [] && !IsSpace(s[0])
    ensures (exists i: nat :: WordAt(s, w, i)) <==> w == s[..WordSpan(s)] || (exists i: nat :: WordAt(s[WordSpan(s)..], w, i))
  {
    hide WordAt, WordSpan;
    FirstIsWord(s);
    if i: nat :| WordAt(s, w, i) {
      WordFound(s, w, i);
    }
    if i: nat :| WordAt(s[WordSpan(s)..], w, i) {
      LaterIsWord(s, w, i);
    }
  }

  lemma SameEnd(s: Bytes, w: Bytes, n: nat)
    requires WordAt(s, w, 0) && n == WordSpan(s)
    ensures w == s[..n]
  {
    WordBytes(s, w, 0);
    assert |w| == n;
  }

  /** `parse_jwt_scopes`. */
  function ParseScopes(v: Value, fmt: DoubleFormat): set<Bytes> {
    match v
    case Arr(items) => set i | 0 <= i < |items| :: JsonText.ToStr(items[i], fmt)
    case Str(s) => Words(s)
    case _ => {}
  }

  /** The claim names the scope: as an item of an array, or as a word of a string. */
  ghost predicate Lists(v: Value, scope: Bytes, fmt: DoubleFormat) {
    match v
    case Arr(items) => exists i | 0 <= i < |items| :: JsonText.ToStr(items[i], fmt) == scope
    case Str(s) => exists i: nat :: WordAt(s, scope, i)
    case _ => false
  }

  lemma ParseScopesExact(v: Value, scope: Bytes, fmt: DoubleFormat)
    ensures scope in ParseScopes(v, fmt) <==> Lists(v, scope, fmt)
  {
    hide Words, WordAt;
    if v.Str? {
      WordsExact(v.s, scope);
    }
  }

  // ----- comparing -----

  function LastSlash(s: Bytes): (r: Option<nat>)
    ensures r.Some? ==> r.value < |s| && s[r.value] == '/' && '/' !in s[r.value + 1..]
    ensures r.None? ==> '/' !in s
    decreases |s|
  {
    if s == [] then None
    else if s[|s| - 1] == '/' then Some(|s| - 1)
    else
      var r := LastSlash(s[..|s| - 1]);
      assert s == s[..|s| - 1] + [s[|s| - 1]];
      assert r.Some? ==> s[r.value + 1..] == s[..|s| - 1][r.value + 1..] + [s[|s| - 1]];
      r
  }

  /** The part behind the last slash, unless there is no slash or nothing behind it. */
  function Suffix(s: Bytes): Option<Bytes> {
    match LastSlash(s)
    case None => None
    case Some(i) => if i + 1 < |s| then Some(s[i + 1..]) else None
  }

  /** `s` is something, a slash, and `last`, which is not empty and holds no slash. */
  ghost predicate EndsIn(s: Bytes, last: Bytes) {
    last != [] && '/' !in last && exists front: Bytes :: s == front + "/" + last
  }

  lemma {:induction false} SlashFound(front: Bytes, last: Bytes)
    requires '/' !in last
    ensures LastSlash(front + "/" + last) == Some(|front|)
    decreases |last|
  {
    var s := front + "/" + last;
    if last == [] {
      assert s[|s| - 1] == '/';
    } else {
      var n := |last| - 1;
      assert s[|s| - 1] == last[n];
      assert s[..|s| - 1] == front + "/" + last[..n];
      SlashFound(front, last[..n]);
    }
  }

  lemma SuffixExact(s: Bytes, last: Bytes)
    ensures Suffix(s) == Some(last) <==> EndsIn(s, last)
  {
    var slash := LastSlash(s);
    if slash.Some? {
      assert s == s[..slash.value] + "/" + s[slash.value + 1..];
    }
    if EndsIn(s, last) {
      var front: Bytes :| s == front + "/" + last;
      SlashFound(front, last);
      assert s[slash.value + 1..] == last;
    }
  }

  /** One round of the loop of `azure_scopes_match`: does this scope let the loop go on? */
  predicate AzurePasses(required: Bytes, received: set<Bytes>) {
    required == "openid" || required in received || Suffix(required).None? || Suffix(required).value in received
  }

  predicate AzureMatch(required: set<Bytes>, received: set<Bytes>) {
    forall r | r in required :: AzurePasses(r, received)
  }

  /** `azure_scopes_match`. */
  method AzureScopesMatch(required: set<Bytes>, received: set<Bytes>) returns (ok: bool)
    ensures ok == AzureMatch(required, received)
  {
    var left := required;
    while left != {}
      invariant left <= required
      invariant forall r | r in required - left :: AzurePasses(r, received)
    {
      var scope :| scope in left;
      left := left - {scope};
      if scope == "openid" {
        continue;
      }
      if scope in received {
        continue;
      }
      var lastSlash := LastSlash(scope);
      if lastSlash.Some? && lastSlash.value < |scope| - 1 {
        var suffix := scope[lastSlash.value + 1..];
        if suffix !in received {
          return false;
        }
      }
    }
    return true;
  }

  /** A required scope is granted when it was received, in full or by the part behind its last slash. */
  ghost predicate Granted(required: Bytes, received: set<Bytes>) {
    required in received || exists last | last in received :: EndsIn(required, last)
  }

  /** A scope with nothing behind a slash. */
  ghost predicate Bare(scope: Bytes) {
    !exists last: Bytes :: EndsIn(scope, last)
  }

  ghost predicate AllGranted(required: set<Bytes>, received: set<Bytes>) {
    forall r | r in required && r != "openid" :: Granted(r, received)
  }

  /** Every required scope without a part behind a slash, other than `openid`, was received. */
  ghost predicate BareReceived(required: set<Bytes>, received: set<Bytes>) {
    forall r | r in required && r != "openid" && Bare(r) :: r in received
  }

  lemma AzurePassesExact(required: Bytes, received: set<Bytes>)
    ensures AzurePasses(required, received) <==> required == "openid" || Granted(required, received) || Bare(required)
  {
    hide Suffix, EndsIn;
    forall last: Bytes ensures Suffix(required) == Some(last) <==> EndsIn(required, last) {
      SuffixExact(required, last);
    }
    if Suffix(required).Some? {
      assert EndsIn(required, Suffix(required).value);
    }
  }

  /** What a match means, in every case: each required scope is `openid`, or was granted, or has
      nothing behind a slash. So the loop rejects only scopes that have: a match means that all but
      `openid` were granted exactly when the bare ones were received, and whatever is granted
      matches. */
  lemma AzureMatchMeaning(required: set<Bytes>, received: set<Bytes>)
    ensures AzureMatch(required, received) <==>
      forall r | r in required :: r == "openid" || Granted(r, received) || Bare(r)
    ensures AllGranted(required, received) <==> AzureMatch(required, received) && BareReceived(required, received)
  {
    hide AzurePasses, Bare;
    forall r ensures AzurePasses(r, received) <==> r == "openid" || Granted(r, received) || Bare(r) {
      AzurePassesExact(r, received);
    }
    if AzureMatch(required, received) && BareReceived(required, received) {
      forall r | r in required && r != "openid" ensures Granted(r, received) {
        assert AzurePasses(r, received);
      }
    }
    if AllGranted(required, received) {
      forall r | r in required && r != "openid" && Bare(r) ensures r in received {
        BareGranted(r, received);
      }
    }
  }

  lemma BareGranted(scope: Bytes, received: set<Bytes>)
    requires Bare(scope) && Granted(scope, received)
    ensures scope in received
  {
  }

  /** A concrete case where the two differ: an unqualified scope is required and nothing is received. */
  lemma UnqualifiedScopePasses()
    ensures AzureMatch({"reports"}, {}) && !Granted("reports", {})
  {
    var r: Bytes := "reports";
    assert '/' !in r;
  }

  /** The decision at the end of `validate_token`. */
  predicate ScopesAllow(required: set<Bytes>, received: set<Bytes>, azure: bool) {
    required == {} || (if azure then AzureMatch(required, received) else required <= received)
  }

  /** More received scopes never hurt, and fewer required ones never do. */
  lemma ScopesMonotone(required: set<Bytes>, fewer: set<Bytes>, received: set<Bytes>, more: set<Bytes>, azure: bool)
    requires fewer <= required && received <= more && ScopesAllow(required, received, azure)
    ensures ScopesAllow(fewer, more, azure)
  {
    hide Suffix;
    if azure && required != {} {
      forall r | r in fewer ensures AzurePasses(r, more) {
        assert AzurePasses(r, received);
      }
    }
  }
}
