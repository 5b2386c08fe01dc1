/** `dshash::entry_ref`: move-only guards, each of which owns the lock of one table entry. */
module EntryRefs {
  import opened ByteStrings
  import opened Holding

  type RefId = nat

  /** One successful `dshash_find` or `dshash_find_or_insert`, and so one lock taken. */
  type Lock = nat

  /** The guards alive with the lock each still owns, the locks ever taken, how often each has been
      released, and whether the `dshash` object that the guards point to still has its table: it
      loses it when another `dshash` is made or assigned from it by a move. */
  datatype World = World(refs: map<RefId, Option<Lock>>, taken: set<Lock>, released: map<Lock, nat>, ownsTable: bool)

  datatype Op =
    | Find(r: RefId, lock: Lock)
    | MoveConstruct(r: RefId, from: RefId)
    | MoveAssign(r: RefId, from: RefId)
    | Destroy(r: RefId)
    | MoveOwner

  predicate Meaningful(w: World, op: Op) {
    match op
    case Find(r, lock) => r !in w.refs && lock !in w.taken && w.ownsTable
    case MoveConstruct(r, from) => r !in w.refs && from in w.refs
    case MoveAssign(r, from) => r in w.refs && from in w.refs
    case Destroy(r) => r in w.refs
    case MoveOwner => true
  }

  function Releases(released: map<Lock, nat>, lock: Lock): nat {
    if lock in released then released[lock] else 0
  }

  /** `if (entry_ && owner_ && owner_->table_) dshash_release_lock(...)`. */
  function Release(w: World, entry: Option<Lock>): World {
    if entry.Some? && w.ownsTable then w.(released := w.released[entry.value := Releases(w.released, entry.value) + 1])
    else w
  }

  function Step(w: World, op: Op): World
    requires Meaningful(w, op)
  {
    match op
    case Find(r, lock) => w.(refs := w.refs[r := Some(lock)], taken := w.taken + {lock})
    case MoveConstruct(r, from) => w.(refs := w.refs[r := w.refs[from]][from := None])
    case MoveAssign(r, from) =>
      if r == from then w
      else
        var v := Release(w, w.refs[r]);
        v.(refs := v.refs[r := v.refs[from]][from := None])
    case Destroy(r) =>
      var v := Release(w, w.refs[r]);
      v.(refs := v.refs - {r})
    case MoveOwner => w.(ownsTable := false)
  }

  /** Every lock has been released once and is owned by nobody, or is owned by exactly one guard. */
  ghost predicate Accounted(w: World) {
    (forall lock | lock in w.taken :: Releases(w.released, lock) + |Holders(w.refs, lock)| == 1) &&
    (forall lock | lock !in w.taken :: Releases(w.released, lock) == 0 && |Holders(w.refs, lock)| == 0)
  }

  lemma HolderIsTaken(w: World, r: RefId)
    requires Accounted(w) && r in w.refs && w.refs[r].Some?
    ensures w.refs[r].value in w.taken
  {
    assert r in Holders(w.refs, w.refs[r].value);
  }

  /** How many owners and releases a step adds for one lock. */
  lemma StepCounts(w: World, op: Op, lock: Lock)
    requires Accounted(w) && Meaningful(w, op) && w.ownsTable && !op.MoveOwner?
    ensures var v := Step(w, op);
      Releases(v.released, lock) + |Holders(v.refs, lock)|
      == Releases(w.released, lock) + |Holders(w.refs, lock)| + (if op.Find? && op.lock == lock then 1 else 0)
  {
    match op
    case Find(r, l) => HoldersAdd(w.refs, r, Some(l), lock);
    case MoveConstruct(r, from) =>
      HoldersAdd(w.refs, r, w.refs[from], lock);
      HoldersUpdate(w.refs[r := w.refs[from]], from, None, lock);
    case MoveAssign(r, from) =>
      if r != from {
        HoldersUpdate(w.refs, r, w.refs[from], lock);
        HoldersUpdate(w.refs[r := w.refs[from]], from, None, lock);
      }
    case Destroy(r) => HoldersRemove(w.refs, r, lock);
  }

  /** While the owner has its table every operation keeps the account. */
  lemma StepKeeps(w: World, op: Op)
    requires Accounted(w) && Meaningful(w, op) && w.ownsTable && !op.MoveOwner?
    ensures Accounted(Step(w, op)) && Step(w, op).ownsTable
  {
    forall lock
      ensures Releases(Step(w, op).released, lock) + |Holders(Step(w, op).refs, lock)|
        == Releases(w.released, lock) + |Holders(w.refs, lock)| + (if op.Find? && op.lock == lock then 1 else 0)
    {
      StepCounts(w, op, lock);
    }
  }

  predicate Same(v: World, w: World, x: RefId) {
    (x in v.refs <==> x in w.refs) && (x in v.refs ==> v.refs[x] == w.refs[x])
  }

  /** Which guard owns what behind an operation: a find gives the lock to the new guard, a move takes
      it from one guard and gives it to the other, and every other guard is left alone. A lock is
      released exactly when a guard that owns it is destroyed or assigned over while the owner has its
      table. */
  lemma StepMeaning(w: World, op: Op, x: RefId, lock: Lock)
    requires Meaningful(w, op)
    ensures
      var v := Step(w, op);
      (match op
       case Find(r, l) => if x == r then x in v.refs && v.refs[x] == Some(l) else Same(v, w, x)
       case MoveConstruct(r, from) =>
         if x == r then x in v.refs && v.refs[x] == w.refs[from]
         else if x == from then x in v.refs && v.refs[x] == None
         else Same(v, w, x)
       case MoveAssign(r, from) =>
         if x == r then x in v.refs && v.refs[x] == w.refs[from]
         else if x == from then x in v.refs && v.refs[x] == None
         else Same(v, w, x)
       case Destroy(r) => if x == r then x !in v.refs else Same(v, w, x)
       case MoveOwner => Same(v, w, x)) &&
      (lock in v.taken <==> lock in w.taken || (op.Find? && op.lock == lock)) &&
      (v.ownsTable <==> w.ownsTable && !op.MoveOwner?) &&
      Releases(v.released, lock) == Releases(w.released, lock) +
        (if w.ownsTable && (op.Destroy? || (op.MoveAssign? && op.r != op.from)) && w.refs[op.r] == Some(lock) then 1 else 0)
  {
  }

  const EMPTY: World := World(map[], {}, map[], true)

  /** What a program that does only meaningful operations gets to; others are passed over. */
  function Run(ops: seq<Op>): World
    decreases |ops|
  {
    if ops == [] then EMPTY
    else
      var w, op := Run(ops[..|ops| - 1]), ops[|ops| - 1];
      if Meaningful(w, op) then Step(w, op) else w
  }

  lemma EmptyAccounted()
    ensures Accounted(EMPTY)
  {
    forall lock ensures |Holders(EMPTY.refs, lock)| == 0 {
      assert Holders(EMPTY.refs, lock) == {};
    }
  }

  lemma {:induction false} RunKeeps(ops: seq<Op>)
    requires MoveOwner !in ops
    ensures Accounted(Run(ops)) && Run(ops).ownsTable
    decreases |ops|
  {
    hide Accounted, Step;
    if ops == [] {
      EmptyAccounted();
    } else {
      var init, op := ops[..|ops| - 1], ops[|ops| - 1];
      RunKeeps(init);
      if Meaningful(Run(init), op) {
        StepKeeps(Run(init), op);
      }
    }
  }

  /** Over any sequence of finds, moves and destructions while the owner stays where it is, no lock is
      released twice, and once no guard is left every lock that was taken has been released exactly
      once. */
  lemma LocksReleasedOnce(ops: seq<Op>)
    requires MoveOwner !in ops
    ensures var w := Run(ops);
      (forall lock | lock in w.taken :: Releases(w.released, lock) <= 1) &&
      (w.refs == map[] ==> forall lock | lock in w.taken :: Releases(w.released, lock) == 1)
  {
    hide Run;
    RunKeeps(ops);
    var w := Run(ops);
    if w.refs == map[] {
      forall lock | lock in w.taken ensures Releases(w.released, lock) == 1 {
        assert Holders(w.refs, lock) == {};
      }
    }
  }

  // ----- moving the owner away -----

  /** The first time the owner is moved away, if ever. */
  function FirstMove(ops: seq<Op>): (r: Option<nat>)
    ensures r.None? <==> MoveOwner !in ops
    ensures r.Some? ==> r.value < |ops| && ops[r.value] == MoveOwner && MoveOwner !in ops[..r.value]
    decreases |ops|
  {
    if ops == [] then None
    else
      var init, last := ops[..|ops| - 1], ops[|ops| - 1];
      assert ops == init + [last];
      var r := FirstMove(init);
      if r.Some? then assert init[..r.value] == ops[..r.value]; r
      else if last == MoveOwner then Some(|ops| - 1)
      else None
  }

  /** From then on nothing is released and nothing is taken. */
  lemma {:induction false} NothingReleasedLater(ops: seq<Op>)
    requires FirstMove(ops).Some?
    ensures var before := Run(ops[..FirstMove(ops).value]);
      !Run(ops).ownsTable && Run(ops).released == before.released && Run(ops).taken == before.taken
    decreases |ops|
  {
    var init := ops[..|ops| - 1];
    if FirstMove(init).Some? {
      assert init[..FirstMove(init).value] == ops[..FirstMove(init).value];
      NothingReleasedLater(init);
    }
  }

  /** No guard owns a lock. */
  predicate NoOwner(w: World) {
    forall r | r in w.refs :: w.refs[r].None?
  }

  lemma NoOwnerMeans(w: World)
    requires Accounted(w)
    ensures NoOwner(w) <==> forall lock | lock in w.taken :: Releases(w.released, lock) == 1
  {
    if NoOwner(w) {
      forall lock | lock in w.taken ensures Releases(w.released, lock) == 1 {
        assert Holders(w.refs, lock) == {};
      }
    }
    if r :| r in w.refs && w.refs[r].Some? {
      HolderIsTaken(w, r);
      assert r in Holders(w.refs, w.refs[r].value);
    }
  }

  /** With moves of the owner too: no lock is ever released twice, and once no guard is left, every
      lock that was taken has been released exactly once if and only if no guard owned a lock when the
      owner was first moved away. */
  lemma ReleasedOnceIffNotStranded(ops: seq<Op>)
    ensures var w := Run(ops);
      (forall lock | lock in w.taken :: Releases(w.released, lock) <= 1) &&
      (w.refs == map[] ==>
        ((forall lock | lock in w.taken :: Releases(w.released, lock) == 1) <==>
         FirstMove(ops).None? || NoOwner(Run(ops[..FirstMove(ops).value]))))
  {
    hide Run, NoOwner;
    if FirstMove(ops).None? {
      LocksReleasedOnce(ops);
    } else {
      var init := ops[..FirstMove(ops).value];
      NothingReleasedLater(ops);
      RunKeeps(init);
      NoOwnerMeans(Run(init));
    }
  }

  /** What goes wrong otherwise: a guard that owns a lock when its owner is moved away never releases
      it. */
  lemma MovedOwnerStrandsLock(w: World, r: RefId)
    requires Accounted(w) && r in w.refs && w.refs[r].Some? && w.ownsTable
    ensures var v := Step(Step(w, MoveOwner), Destroy(r));
      w.refs[r].value in v.taken && Releases(v.released, w.refs[r].value) == 0 && |Holders(v.refs, w.refs[r].value)| == 0
  {
    HolderIsTaken(w, r);
    var lock := w.refs[r].value;
    HoldersRemove(w.refs, r, lock);
  }

  /** The guards as objects that the methods of the class change, in the order of the source. */
  class Guards {
    var refs: map<RefId, Option<Lock>>
    var released: map<Lock, nat>
    var ownsTable: bool
    ghost var taken: set<Lock>

    ghost function View(): World
      reads this
    {
      World(refs, taken, released, ownsTable)
    }

    constructor ()
      ensures View() == EMPTY
    {
      refs, released, ownsTable, taken := map[], map[], true, {};
    }

    method ReleaseLock(r: RefId)
      requires r in refs
      modifies `released
      ensures View() == Release(old(View()), refs[r])
    {
      if refs[r].Some? && ownsTable {
        var n := Releases(released, refs[r].value);
        released := released[refs[r].value := n + 1];
      }
    }

    /** `find` and `find_or_insert`: the lock that the library has just taken goes to a new guard. */
    method FindRef(r: RefId, lock: Lock)
      requires Meaningful(View(), Find(r, lock))
      modifies this
      ensures View() == Step(old(View()), Find(r, lock))
    {
      refs := refs[r := Some(lock)];
      taken := taken + {lock};
    }

    /** What moving the `dshash` object away does to the one the guards point to. */
    method MoveOwnerAway()
      modifies this
      ensures View() == Step(old(View()), MoveOwner)
    {
      ownsTable := false;
    }

    method MoveConstructRef(r: RefId, from: RefId)
      requires Meaningful(View(), MoveConstruct(r, from))
      modifies this
      ensures View() == Step(old(View()), MoveConstruct(r, from))
    {
      refs := refs[r := refs[from]];
      refs := refs[from := None];
    }

    method MoveAssignRef(r: RefId, from: RefId)
      requires Meaningful(View(), MoveAssign(r, from))
      modifies this
      ensures View() == Step(old(View()), MoveAssign(r, from))
    {
      if r != from {
        ReleaseLock(r);
        refs := refs[r := refs[from]];
        refs := refs[from := None];
      }
    }

    method DestroyRef(r: RefId)
      requires Meaningful(View(), Destroy(r))
      modifies this
      ensures View() == Step(old(View()), Destroy(r))
    {
      ReleaseLock(r);
      refs := refs - {r};
    }
  }
}
