/** `evp_pkey_handle`: shared ownership of OpenSSL keys by explicit reference counts. */
module KeyHandles {
  import opened ByteStrings
  import opened Holding

  type Key = nat
  type HandleId = nat

  /** All handle objects alive with the key each one points to, the library's reference counts (a key
      whose count reaches zero is freed and leaves the map), and the references that code outside any
      handle holds. */
  datatype World = World(handles: map<HandleId, Option<Key>>, refs: map<Key, nat>, outside: map<Key, nat>)

  datatype Op =
    | NewKey(key: Key) | OutsideUpRef(key: Key) | OutsideFree(key: Key)
    | MakeNull(h: HandleId)
    | MakeOwning(h: HandleId, key: Key)
    | CopyConstruct(h: HandleId, from: HandleId)
    | MoveConstruct(h: HandleId, from: HandleId)
    | CopyAssign(h: HandleId, from: HandleId)
    | MoveAssign(h: HandleId, from: HandleId)
    | RawAssign(h: HandleId, raw: Option<Key>)
    | Destroy(h: HandleId)

  function Count(m: map<Key, nat>, key: Key): nat {
    if key in m then m[key] else 0
  }

  /** `EVP_PKEY_up_ref`, `increment_ref_count`: nothing for null, None for a key that is gone. */
  function UpRef(refs: map<Key, nat>, key: Option<Key>): Option<map<Key, nat>> {
    if key.None? then Some(refs)
    else if key.value !in refs then None
    else Some(refs[key.value := refs[key.value] + 1])
  }

  /** `EVP_PKEY_free`, `decrement_ref_count`: the last reference frees the key. */
  function Free(refs: map<Key, nat>, key: Option<Key>): Option<map<Key, nat>> {
    if key.None? then Some(refs)
    else if key.value !in refs then None
    else if refs[key.value] <= 1 then Some(refs - {key.value})
    else Some(refs[key.value := refs[key.value] - 1])
  }

  /** What a program can write: operations on handles that exist, construction of ones that do not,
      and outside references only where somebody holds one. */
  predicate Meaningful(w: World, op: Op) {
    match op
    case NewKey(key) => key !in w.refs
    case OutsideUpRef(key) => Count(w.outside, key) > 0
    case OutsideFree(key) => Count(w.outside, key) > 0
    case MakeNull(h) => h !in w.handles
    case MakeOwning(h, key) => h !in w.handles && Count(w.outside, key) > 0
    case CopyConstruct(h, from) => h !in w.handles && from in w.handles
    case MoveConstruct(h, from) => h !in w.handles && from in w.handles
    case CopyAssign(h, from) => h in w.handles && from in w.handles
    case MoveAssign(h, from) => h in w.handles && from in w.handles
    case RawAssign(h, _) => h in w.handles
    case Destroy(h) => h in w.handles
  }

  /** The caller of the raw-pointer assignment holds a reference to what it assigns. */
  predicate RawHeld(w: World, op: Op) {
    op.RawAssign? && op.raw.Some? ==> Count(w.outside, op.raw.value) > 0
  }

  /** `h = from` in the order of the source: drop the old key, copy the pointer, take a reference. */
  function Assign(w: World, h: HandleId, key: Option<Key>): Option<World>
    requires h in w.handles
  {
    match Free(w.refs, w.handles[h])
    case None => None
    case Some(dropped) =>
      match UpRef(dropped, key)
      case None => None
      case Some(refs) => Some(w.(handles := w.handles[h := key], refs := refs))
  }

  /** The state after an operation; None when it touches a key that has been freed. */
  function Step(w: World, op: Op): Option<World>
    requires Meaningful(w, op)
  {
    match op
    case NewKey(key) => Some(w.(refs := w.refs[key := 1], outside := w.outside[key := Count(w.outside, key) + 1]))
    case OutsideUpRef(key) =>
      (match UpRef(w.refs, Some(key))
       case None => None
       case Some(refs) => Some(w.(refs := refs, outside := w.outside[key := Count(w.outside, key) + 1])))
    case OutsideFree(key) =>
      (match Free(w.refs, Some(key))
       case None => None
       case Some(refs) => Some(w.(refs := refs, outside := w.outside[key := Count(w.outside, key) - 1])))
    case MakeNull(h) => Some(w.(handles := w.handles[h := None]))
    case MakeOwning(h, key) =>
      Some(w.(handles := w.handles[h := Some(key)], outside := w.outside[key := Count(w.outside, key) - 1]))
    case CopyConstruct(h, from) =>
      (match UpRef(w.refs, w.handles[from])
       case None => None
       case Some(refs) => Some(w.(handles := w.handles[h := w.handles[from]], refs := refs)))
    case MoveConstruct(h, from) => Some(w.(handles := w.handles[h := w.handles[from]][from := None]))
    case CopyAssign(h, from) => if h == from then Some(w) else Assign(w, h, w.handles[from])
    case MoveAssign(h, from) =>
      if h == from then Some(w)
      else
        (match Free(w.refs, w.handles[h])
         case None => None
         case Some(refs) => Some(w.(handles := w.handles[h := w.handles[from]][from := None], refs := refs)))
    case RawAssign(h, raw) => Assign(w, h, raw)
    case Destroy(h) =>
      (match Free(w.refs, w.handles[h])
       case None => None
       case Some(refs) => Some(w.(handles := w.handles - {h}, refs := refs)))
  }

  // ----- conservation -----

  /** Each key's reference count is the number of handles on it plus the outside references, and a
      key without any is gone. */
  ghost predicate Conserved(w: World) {
    (forall key :: Count(w.refs, key) == |Holders(w.handles, key)| + Count(w.outside, key)) &&
    (forall key | key in w.refs :: w.refs[key] > 0)
  }

  /** A key that a handle points to, or that somebody outside refers to, has not been freed. */
  lemma InUse(w: World, key: Key)
    requires Conserved(w)
    requires Count(w.outside, key) > 0 || exists h :: h in w.handles && w.handles[h] == Some(key)
    ensures key in w.refs
  {
    if h :| h in w.handles && w.handles[h] == Some(key) {
      assert h in Holders(w.handles, key);
    }
  }

  lemma FreeCounts(refs: map<Key, nat>, key: Option<Key>)
    requires forall k | k in refs :: refs[k] > 0
    requires Free(refs, key).Some?
    ensures forall k :: Count(Free(refs, key).value, k) + Is(key, k) == Count(refs, k)
    ensures forall k | k in Free(refs, key).value :: Free(refs, key).value[k] > 0
  {
  }

  lemma UpRefCounts(refs: map<Key, nat>, key: Option<Key>)
    requires forall k | k in refs :: refs[k] > 0
    requires UpRef(refs, key).Some?
    ensures forall k :: Count(UpRef(refs, key).value, k) == Count(refs, k) + Is(key, k)
    ensures forall k | k in UpRef(refs, key).value :: UpRef(refs, key).value[k] > 0
  {
  }

  /** When the assignment of `key` to `h` touches no freed key: somebody other than `h` itself still
      refers to it, so that dropping `h`'s old key first cannot free it. */
  predicate SafeToAssign(w: World, h: HandleId, key: Option<Key>)
    requires h in w.handles
  {
    key.Some? ==> Count(w.refs, key.value) > Is(w.handles[h], key.value)
  }

  lemma AssignKeeps(w: World, h: HandleId, key: Option<Key>)
    requires Conserved(w) && h in w.handles
    ensures Assign(w, h, key).Some? <==> SafeToAssign(w, h, key)
    ensures Assign(w, h, key).Some? ==> Conserved(Assign(w, h, key).value)
  {
    if w.handles[h].Some? {
      InUse(w, w.handles[h].value);
    }
    FreeCounts(w.refs, w.handles[h]);
    var dropped := Free(w.refs, w.handles[h]).value;
    if key.Some? {
      assert Count(dropped, key.value) + Is(w.handles[h], key.value) == Count(w.refs, key.value);
    }
    if UpRef(dropped, key).Some? {
      UpRefCounts(dropped, key);
      var v := Assign(w, h, key).value;
      forall k ensures Count(v.refs, k) == |Holders(v.handles, k)| + Count(v.outside, k) {
        HoldersUpdate(w.handles, h, key, k);
      }
    }
  }

  lemma MoveKeeps(w: World, op: Op)
    requires Conserved(w) && Meaningful(w, op) && (op.MoveConstruct? || op.MoveAssign?)
    ensures Step(w, op).Some? && Conserved(Step(w, op).value)
  {
    if op.h != op.from {
      var prev := if op.h in w.handles then w.handles[op.h] else None;
      if prev.Some? {
        InUse(w, prev.value);
      }
      FreeCounts(w.refs, prev);
      var v := Step(w, op).value;
      forall k ensures Count(v.refs, k) == |Holders(v.handles, k)| + Count(v.outside, k) {
        if op.h in w.handles {
          HoldersUpdate(w.handles, op.h, w.handles[op.from], k);
        } else {
          HoldersAdd(w.handles, op.h, w.handles[op.from], k);
        }
        HoldersUpdate(w.handles[op.h := w.handles[op.from]], op.from, None, k);
      }
    }
  }

  lemma MakeKeeps(w: World, op: Op)
    requires Conserved(w) && Meaningful(w, op) && (op.MakeNull? || op.MakeOwning? || op.CopyConstruct? || op.Destroy?)
    ensures Step(w, op).Some? && Conserved(Step(w, op).value)
  {
    if op.CopyConstruct? && w.handles[op.from].Some? {
      InUse(w, w.handles[op.from].value);
    }
    if op.Destroy? {
      if w.handles[op.h].Some? {
        InUse(w, w.handles[op.h].value);
      }
      FreeCounts(w.refs, w.handles[op.h]);
    }
    if op.CopyConstruct? {
      UpRefCounts(w.refs, w.handles[op.from]);
    }
    var v := Step(w, op).value;
    forall k ensures Count(v.refs, k) == |Holders(v.handles, k)| + Count(v.outside, k) {
      match op
      case MakeNull(h) => HoldersAdd(w.handles, h, None, k);
      case MakeOwning(h, key) => HoldersAdd(w.handles, h, Some(key), k);
      case CopyConstruct(h, from) => HoldersAdd(w.handles, h, w.handles[from], k);
      case Destroy(h) => HoldersRemove(w.handles, h, k);
    }
  }

  lemma OutsideKeeps(w: World, op: Op)
    requires Conserved(w) && Meaningful(w, op) && (op.NewKey? || op.OutsideUpRef? || op.OutsideFree?)
    ensures Step(w, op).Some? && Conserved(Step(w, op).value)
  {
    if op.OutsideUpRef? {
      InUse(w, op.key);
      UpRefCounts(w.refs, Some(op.key));
    } else if op.OutsideFree? {
      InUse(w, op.key);
      FreeCounts(w.refs, Some(op.key));
    } else {
      assert Count(w.refs, op.key) == 0;
    }
  }

  /** Exactly which operations are safe: all of them, except a raw-pointer assignment of a key that
      nobody but the assigned handle refers to. Whatever is safe conserves the counts. */
  lemma StepKeeps(w: World, op: Op)
    requires Conserved(w) && Meaningful(w, op)
    ensures Step(w, op).Some? <==> (op.RawAssign? ==> SafeToAssign(w, op.h, op.raw))
    ensures Step(w, op).Some? ==> Conserved(Step(w, op).value)
  {
    hide Conserved, Assign;
    match op
    case MoveConstruct(_, _) => MoveKeeps(w, op);
    case MoveAssign(_, _) => MoveKeeps(w, op);
    case CopyAssign(h, from) =>
      AssignKeeps(w, h, w.handles[from]);
      if h != from {
        OtherHolder(w, h, from);
      }
    case RawAssign(h, raw) => AssignKeeps(w, h, raw);
    case NewKey(_) => OutsideKeeps(w, op);
    case OutsideUpRef(_) => OutsideKeeps(w, op);
    case OutsideFree(_) => OutsideKeeps(w, op);
    case _ => MakeKeeps(w, op);
  }

  /** The handle is there in both states with the same pointer, or in neither. */
  predicate Same(v: World, w: World, x: HandleId) {
    (x in v.handles <==> x in w.handles) && (x in v.handles ==> v.handles[x] == w.handles[x])
  }

  /** Where the handles point behind an operation: a copy points to the key of its source, which keeps
      it; a move takes it away; every other handle is left alone. Of the outside references, only the
      one that is taken, given back or handed to a handle changes. With conservation that fixes every
      reference count. */
  lemma StepMeaning(w: World, op: Op, x: HandleId, key: Key)
    requires Conserved(w) && Meaningful(w, op) && Step(w, op).Some?
    ensures
      var v := Step(w, op).value;
      (match op
       case NewKey(_) => Same(v, w, x)
       case OutsideUpRef(_) => Same(v, w, x)
       case OutsideFree(_) => Same(v, w, x)
       case MakeNull(h) => if x == h then x in v.handles && v.handles[x] == None else Same(v, w, x)
       case MakeOwning(h, k) => if x == h then x in v.handles && v.handles[x] == Some(k) else Same(v, w, x)
       case CopyConstruct(h, from) => if x == h then x in v.handles && v.handles[x] == w.handles[from] else Same(v, w, x)
       case CopyAssign(h, from) => if x == h then x in v.handles && v.handles[x] == w.handles[from] else Same(v, w, x)
       case MoveConstruct(h, from) =>
         if x == h then x in v.handles && v.handles[x] == w.handles[from]
         else if x == from then x in v.handles && v.handles[x] == None
         else Same(v, w, x)
       case MoveAssign(h, from) =>
         if x == h then x in v.handles && v.handles[x] == w.handles[from]
         else if x == from then x in v.handles && v.handles[x] == None
         else Same(v, w, x)
       case RawAssign(h, raw) => if x == h then x in v.handles && v.handles[x] == raw else Same(v, w, x)
       case Destroy(h) => if x == h then x !in v.handles else Same(v, w, x)) &&
      Count(v.outside, key) == Count(w.outside, key)
        + (if (op.NewKey? || op.OutsideUpRef?) && op.key == key then 1 else 0)
        - (if (op.MakeOwning? || op.OutsideFree?) && op.key == key then 1 else 0)
    ensures Count(Step(w, op).value.refs, key) == |Holders(Step(w, op).value.handles, key)| + Count(Step(w, op).value.outside, key)
  {
    hide Conserved, Free, UpRef;
    StepKeeps(w, op);
    CountedRight(Step(w, op).value, key);
  }

  lemma CountedRight(w: World, key: Key)
    requires Conserved(w)
    ensures Count(w.refs, key) == |Holders(w.handles, key)| + Count(w.outside, key)
  {
  }

  /** In a copy assignment the source handle keeps the key alive. */
  lemma OtherHolder(w: World, h: HandleId, from: HandleId)
    requires Conserved(w) && h in w.handles && from in w.handles && h != from
    ensures SafeToAssign(w, h, w.handles[from])
  {
    if w.handles[from].Some? {
      var key := w.handles[from].value;
      var holders := Holders(w.handles, key);
      HoldersRemove(w.handles, h, key);
      assert from in Holders(w.handles - {h}, key);
    }
  }

  /** A caller-held reference makes the raw-pointer assignment safe. */
  lemma HeldIsSafe(w: World, op: Op)
    requires Conserved(w) && Meaningful(w, op) && RawHeld(w, op) && op.RawAssign?
    ensures SafeToAssign(w, op.h, op.raw)
  {
    if op.raw.Some? {
      HoldersRemove(w.handles, op.h, op.raw.value);
    }
  }

  /** The states a program goes through; None as soon as it touches a freed key. */
  ghost function RunAll(w: World, ops: seq<Op>): Option<World>
    decreases |ops|
  {
    if ops == [] then Some(w)
    else if !Meaningful(w, ops[0]) || !RawHeld(w, ops[0]) then Some(w)
    else
      match Step(w, ops[0])
      case None => None
      case Some(v) => RunAll(v, ops[1..])
  }

  /** Over any sequence of operations no freed key is touched and every count stays right. */
  lemma {:induction false} RunKeeps(w: World, ops: seq<Op>)
    requires Conserved(w)
    ensures RunAll(w, ops).Some? && Conserved(RunAll(w, ops).value)
    decreases |ops|
  {
    hide Conserved, Step, SafeToAssign;
    if ops != [] && Meaningful(w, ops[0]) && RawHeld(w, ops[0]) {
      StepKeeps(w, ops[0]);
      if ops[0].RawAssign? {
        HeldIsSafe(w, ops[0]);
      }
      RunKeeps(Step(w, ops[0]).value, ops[1..]);
    }
  }

  /** Without such a reference it can go wrong: a handle that owns the only reference to its key
      drops it before it takes a new one. */
  lemma RawSelfAssignFails()
    ensures var w := World(map[0 := Some(7)], map[7 := 1], map[]);
      Conserved(w) && Step(w, RawAssign(0, Some(7))) == None
  {
    var w := World(map[0 := Some(7)], map[7 := 1], map[]);
    forall key ensures Count(w.refs, key) == |Holders(w.handles, key)| + Count(w.outside, key) {
      assert Holders(w.handles, key) == if key == 7 then {0} else {};
    }
  }

  /** Handles and counts as the objects that the methods of the class change. */
  class Handles {
    var handles: map<HandleId, Option<Key>>
    var refs: map<Key, nat>
    ghost var outside: map<Key, nat>

    ghost function View(): World
      reads this
    {
      World(handles, refs, outside)
    }

    constructor ()
      ensures Conserved(View()) && handles == map[]
    {
      handles, refs, outside := map[], map[], map[];
      new;
      forall key ensures |Holders(handles, key)| == 0 {
        assert Holders(handles, key) == {};
      }
    }

    method IncrementRefCount(key: Option<Key>)
      requires key.Some? ==> key.value in refs
      modifies `refs
      ensures UpRef(old(refs), key) == Some(refs)
    {
      if key.Some? {
        refs := refs[key.value := refs[key.value] + 1];
      }
    }

    method DecrementRefCount(key: Option<Key>)
      requires key.Some? ==> key.value in refs
      modifies `refs
      ensures Free(old(refs), key) == Some(refs)
    {
      if key.Some? {
        if refs[key.value] <= 1 {
          refs := refs - {key.value};
        } else {
          refs := refs[key.value := refs[key.value] - 1];
        }
      }
    }

    method CopyConstruct(h: HandleId, from: HandleId)
      requires Conserved(View()) && Meaningful(View(), Op.CopyConstruct(h, from))
      modifies this
      ensures Step(old(View()), Op.CopyConstruct(h, from)) == Some(View()) && Conserved(View())
    {
      StepKeeps(View(), Op.CopyConstruct(h, from));
      handles := handles[h := handles[from]];
      IncrementRefCount(handles[h]);
    }

    method MoveConstruct(h: HandleId, from: HandleId)
      requires Conserved(View()) && Meaningful(View(), Op.MoveConstruct(h, from))
      modifies this
      ensures Step(old(View()), Op.MoveConstruct(h, from)) == Some(View()) && Conserved(View())
    {
      StepKeeps(View(), Op.MoveConstruct(h, from));
      handles := handles[h := handles[from]];
      handles := handles[from := None];
    }

    method CopyAssign(h: HandleId, from: HandleId)
      requires Conserved(View()) && Meaningful(View(), Op.CopyAssign(h, from))
      modifies this
      ensures Step(old(View()), Op.CopyAssign(h, from)) == Some(View()) && Conserved(View())
    {
      StepKeeps(View(), Op.CopyAssign(h, from));
      if h == from {
        return;
      }
      DecrementRefCount(handles[h]);
      handles := handles[h := handles[from]];
      IncrementRefCount(handles[h]);
    }

    method MoveAssign(h: HandleId, from: HandleId)
      requires Conserved(View()) && Meaningful(View(), Op.MoveAssign(h, from))
      modifies this
      ensures Step(old(View()), Op.MoveAssign(h, from)) == Some(View()) && Conserved(View())
    {
      StepKeeps(View(), Op.MoveAssign(h, from));
      if h == from {
        return;
      }
      DecrementRefCount(handles[h]);
      handles := handles[h := handles[from]];
      handles := handles[from := None];
    }

    method RawAssign(h: HandleId, raw: Option<Key>)
      requires Conserved(View()) && Meaningful(View(), Op.RawAssign(h, raw)) && SafeToAssign(View(), h, raw)
      modifies this
      ensures Step(old(View()), Op.RawAssign(h, raw)) == Some(View()) && Conserved(View())
    {
      StepKeeps(View(), Op.RawAssign(h, raw));
      DecrementRefCount(handles[h]);
      handles := handles[h := raw];
      IncrementRefCount(handles[h]);
    }

    method Destroy(h: HandleId)
      requires Conserved(View()) && Meaningful(View(), Op.Destroy(h))
      modifies this
      ensures Step(old(View()), Op.Destroy(h)) == Some(View()) && Conserved(View())
    {
      StepKeeps(View(), Op.Destroy(h));
      DecrementRefCount(handles[h]);
      handles := handles - {h};
    }
  }
}
