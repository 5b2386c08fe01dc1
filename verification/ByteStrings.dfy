/** Byte strings as the C++ code sees them (`std::string`, `char*`), the order `std::map` keeps
    its keys in, and the small vocabulary shared by the other modules. */
module ByteStrings {

  /** One 8-bit char. Characters are used rather than numbers so that literals stay readable. */
  type byte = c: char | c as int < 256

  type Bytes = seq<byte>

  datatype Option<+T> = None | Some(value: T)

  const NUL: byte := '\0'

  lemma Regrouped(a: Bytes, b: Bytes, c: Bytes)
    ensures a + (b + c) == (a + b) + c
  {
  }

  /** What a `const char*` made from `s` by `c_str()` denotes: everything before the first NUL. */
  function CStr(s: Bytes): (r: Bytes)
    ensures r <= s
    ensures NUL !in r
    ensures r == s || s[|r|] == NUL
  {
    if s == [] || s[0] == NUL then [] else [s[0]] + CStr(s[1..])
  }

  lemma {:induction false} CStrOfNulFree(s: Bytes)
    requires NUL !in s
    ensures CStr(s) == s
  {
    if s != [] {
      CStrOfNulFree(s[1..]);
    }
  }

  /** The C string stored at the front of a buffer does not depend on what follows its NUL. */
  lemma {:induction false} CStrOfTerminated(s: Bytes, tail: Bytes)
    requires NUL !in s
    ensures CStr(s + [NUL] + tail) == s
  {
    if s == [] {
      assert (s + [NUL] + tail)[0] == NUL;
    } else {
      assert (s + [NUL] + tail)[1..] == s[1..] + [NUL] + tail;
      CStrOfTerminated(s[1..], tail);
    }
  }

  /** `std::string::operator<`: lexicographic on unsigned bytes. */
  predicate Less(a: Bytes, b: Bytes) {
    b != [] && (a == [] || a[0] < b[0] || (a[0] == b[0] && Less(a[1..], b[1..])))
  }

  /** `a` and `b` agree below `i`, and there `a` ends or has the smaller byte. */
  predicate SmallerAt(a: Bytes, b: Bytes, i: nat) {
    i <= |a| && i < |b| && a[..i] == b[..i] && (i < |a| ==> (a[i] as int) < (b[i] as int))
  }

  /** The order in its own terms. */
  lemma {:induction false} LessExact(a: Bytes, b: Bytes)
    ensures Less(a, b) <==> exists i: nat :: SmallerAt(a, b, i)
  {
    if b != [] && (a == [] || a[0] != b[0]) {
      assert SmallerAt(a, b, 0) <==> Less(a, b);
      if i: nat :| SmallerAt(a, b, i) {
        assert i > 0 ==> a[..i][0] == b[..i][0];
      }
    } else if b != [] {
      LessExact(a[1..], b[1..]);
      if i: nat :| SmallerAt(a[1..], b[1..], i) {
        assert a[..i + 1] == [a[0]] + a[1..][..i] && b[..i + 1] == [b[0]] + b[1..][..i];
        assert SmallerAt(a, b, i + 1);
      }
      if i: nat :| SmallerAt(a, b, i) {
        assert i > 0;
        assert a[1..][..i - 1] == a[..i][1..] && b[1..][..i - 1] == b[..i][1..];
        assert SmallerAt(a[1..], b[1..], i - 1);
      }
    }
  }

  lemma {:induction false} LessTotal(a: Bytes, b: Bytes)
    ensures a == b || Less(a, b) || Less(b, a)
  {
    if a != [] && b != [] && a[0] == b[0] {
      LessTotal(a[1..], b[1..]);
      assert a == [a[0]] + a[1..] && b == [b[0]] + b[1..];
    }
  }

  lemma {:induction false} LessAsymmetric(a: Bytes, b: Bytes)
    requires Less(a, b)
    ensures !Less(b, a)
    ensures a != b
  {
    if a != [] && a[0] == b[0] {
      LessAsymmetric(a[1..], b[1..]);
    }
  }

  lemma {:induction false} LessTransitive(a: Bytes, b: Bytes, c: Bytes)
    requires Less(a, b) && Less(b, c)
    ensures Less(a, c)
  {
    if a != [] && a[0] == b[0] == c[0] {
      LessTransitive(a[1..], b[1..], c[1..]);
    }
  }

  predicate IsLeast(k: Bytes, ks: set<Bytes>) {
    k in ks && forall o | o in ks :: o == k || Less(k, o)
  }

  lemma {:induction false} LeastExists(ks: set<Bytes>)
    requires ks != {}
    ensures exists k :: IsLeast(k, ks)
  {
    var x :| x in ks;
    if ks == {x} {
      assert IsLeast(x, ks);
    } else {
      assert ks - {x} != {} by {
        assert ks != {x};
      }
      LeastExists(ks - {x});
      var y :| IsLeast(y, ks - {x});
      LessTotal(x, y);
      if Less(y, x) {
        assert IsLeast(y, ks);
      } else {
        forall o | o in ks ensures o == x || Less(x, o) {
          if o != x && o != y {
            LessTransitive(x, y, o);
          }
        }
        assert IsLeast(x, ks);
      }
    }
  }

  lemma LeastUnique(j: Bytes, k: Bytes, ks: set<Bytes>)
    requires IsLeast(j, ks) && IsLeast(k, ks)
    ensures j == k
  {
    if j != k {
      LessAsymmetric(j, k);
    }
  }

  lemma OneLeast(ks: set<Bytes>)
    requires ks != {}
    ensures exists k :: IsLeast(k, ks)
    ensures forall j, k | IsLeast(j, ks) && IsLeast(k, ks) :: j == k
  {
    hide IsLeast;
    LeastExists(ks);
    forall j, k | IsLeast(j, ks) && IsLeast(k, ks) ensures j == k {
      LeastUnique(j, k, ks);
    }
  }

  predicate Increasing(ks: seq<Bytes>) {
    forall i, j | 0 <= i < j < |ks| :: Less(ks[i], ks[j])
  }

  /** The order in which iterating over a `std::map` with these keys visits them. */
  function SortedKeys(ks: set<Bytes>): (r: seq<Bytes>)
    ensures forall k :: k in r <==> k in ks
    ensures |r| == |ks|
    ensures Increasing(r)
  {
    if ks == {} then [] else
      OneLeast(ks);
      var k :| IsLeast(k, ks);
      [k] + SortedKeys(ks - {k})
  }

  /** `s.find(c)`: index of the first occurrence of `c` at or after `from`, if any. */
  function Find(s: Bytes, c: byte, from: nat): (r: Option<nat>)
    requires from <= |s|
    ensures r.Some? ==> from <= r.value < |s| && s[r.value] == c && c !in s[from..r.value]
    ensures r.None? ==> c !in s[from..]
    decreases |s| - from
  {
    if from == |s| then None
    else if s[from] == c then Some(from)
    else
      assert s[from..] == [s[from]] + s[from + 1..];
      var r := Find(s, c, from + 1);
      assert r.Some? ==> s[from..r.value] == [s[from]] + s[from + 1..r.value];
      r
  }

  /** `hay.contains(needle)` for strings. */
  predicate Contains(hay: Bytes, needle: Bytes) {
    exists i | 0 <= i <= |hay| :: OccursAt(hay, needle, i)
  }

  predicate OccursAt(hay: Bytes, needle: Bytes, i: int) {
    0 <= i && i + |needle| <= |hay| && hay[i..i + |needle|] == needle
  }
}
