/** Counting the objects of a kind that point to one resource. */
module Holding {
  import opened ByteStrings

  function Holders(handles: map<nat, Option<nat>>, key: nat): set<nat> {
    set h | h in handles && handles[h] == Some(key)
  }

  function Is(key: Option<nat>, k: nat): nat {
    if key == Some(k) then 1 else 0
  }

  lemma HoldersAdd(handles: map<nat, Option<nat>>, h: nat, v: Option<nat>, key: nat)
    requires h !in handles
    ensures |Holders(handles[h := v], key)| == |Holders(handles, key)| + Is(v, key)
  {
    var before, after := Holders(handles, key), Holders(handles[h := v], key);
    if v == Some(key) {
      assert after == before + {h};
    } else {
      assert after == before;
    }
  }

  lemma HoldersRemove(handles: map<nat, Option<nat>>, h: nat, key: nat)
    requires h in handles
    ensures |Holders(handles - {h}, key)| + Is(handles[h], key) == |Holders(handles, key)|
  {
    HoldersAdd(handles - {h}, h, handles[h], key);
    assert (handles - {h})[h := handles[h]] == handles;
  }

  lemma HoldersUpdate(handles: map<nat, Option<nat>>, h: nat, v: Option<nat>, key: nat)
    requires h in handles
    ensures |Holders(handles[h := v], key)| + Is(handles[h], key) == |Holders(handles, key)| + Is(v, key)
  {
    HoldersRemove(handles, h, key);
    HoldersAdd(handles - {h}, h, v, key);
    assert (handles - {h})[h := v] == handles[h := v];
  }
}
