/** `attach_shared`: any number of backends race to create one shared table, with a first look at the
    handles that takes no lock. Each step below is one access to shared memory or one library call;
    they interleave freely, under sequential consistency, and library calls succeed when they are
    given valid handles. */
module SharedTable {
  import opened ByteStrings

  type Pid = nat
  type Handle = nat

  /** The lines of `attach_shared` between which another backend may run. */
  datatype Line =
    | FirstLook      // read area_handle without the lock
    | AwaitLock      // LWLockAcquire
    | SecondLook     // read area_handle again, under the lock
    | CreateArea | CreateTable | PublishTable | PublishArea
    | SlowAttachArea | SlowAttachTable
    | Unlock
    | FastAttachArea | FastAttachTable
    | Attached
    | Broken         // an attach was given a handle that is not valid

  datatype Backend = Backend(line: Line, area: Option<Handle>, table: Option<Handle>)

  /** The shared state, the areas and tables that exist (each table with its area), the lock's owner
      and every backend that has called `attach_shared`. */
  datatype State = State(
    areaHandle: Option<Handle>, tableHandle: Option<Handle>,
    areas: set<Handle>, tables: map<Handle, Handle>,
    lock: Option<Pid>, backends: map<Pid, Backend>)

  /** After the segment's initialisation callback, which runs once. */
  const INIT: State := State(None, None, {}, map[], None, map[])

  /** The order of the two publishing writes; the code has `TableFirst`. */
  datatype Order = TableFirst | AreaFirst

  function Goto(s: State, p: Pid, b: Backend): State {
    s.(backends := s.backends[p := b])
  }

  predicate ValidTable(s: State, table: Option<Handle>, area: Option<Handle>) {
    table.Some? && area.Some? && table.value in s.tables && s.tables[table.value] == area.value
  }

  /** `dsa_attach` of the published area. */
  function AttachArea(s: State, p: Pid, b: Backend, next: Line): State {
    if s.areaHandle.Some? && s.areaHandle.value in s.areas then Goto(s, p, b.(line := next, area := s.areaHandle))
    else Goto(s, p, b.(line := Broken))
  }

  /** `dshash_attach` of the published table in the backend's area. */
  function AttachTable(s: State, p: Pid, b: Backend, next: Line): State {
    if ValidTable(s, s.tableHandle, b.area) then Goto(s, p, b.(line := next, table := s.tableHandle))
    else Goto(s, p, b.(line := Broken))
  }

  function WriteTable(s: State, b: Backend): State {
    s.(tableHandle := b.table)
  }

  function WriteArea(s: State, b: Backend): State {
    s.(areaHandle := b.area)
  }

  /** One step of backend `p`; `given` is the handle a creating call would return. A step that cannot
      be taken leaves the state alone. A backend that is attached may detach and start again. */
  function Step(s: State, p: Pid, given: Handle, order: Order): State {
    if p !in s.backends then Goto(s, p, Backend(FirstLook, None, None))
    else
      var b := s.backends[p];
      match b.line
      case FirstLook => Goto(s, p, b.(line := if s.areaHandle.None? then AwaitLock else FastAttachArea))
      case AwaitLock => if s.lock.Some? then s else Goto(s, p, b.(line := SecondLook)).(lock := Some(p))
      case SecondLook => Goto(s, p, b.(line := if s.areaHandle.None? then CreateArea else SlowAttachArea))
      case CreateArea =>
        if given in s.areas then s
        else Goto(s, p, b.(line := CreateTable, area := Some(given))).(areas := s.areas + {given})
      case CreateTable =>
        if given in s.tables || b.area.None? then s
        else Goto(s, p, b.(line := PublishTable, table := Some(given))).(tables := s.tables[given := b.area.value])
      case PublishTable =>
        Goto(if order.TableFirst? then WriteTable(s, b) else WriteArea(s, b), p, b.(line := PublishArea))
      case PublishArea =>
        Goto(if order.TableFirst? then WriteArea(s, b) else WriteTable(s, b), p, b.(line := Unlock))
      case SlowAttachArea => AttachArea(s, p, b, SlowAttachTable)
      case SlowAttachTable => AttachTable(s, p, b, Unlock)
      case Unlock => Goto(s, p, b.(line := Attached)).(lock := None)
      case FastAttachArea => AttachArea(s, p, b, FastAttachTable)
      case FastAttachTable => AttachTable(s, p, b, Attached)
      case Attached => s.(backends := s.backends - {p})
      case Broken => s
  }

  /** Who moves next, and the handle it is given if it creates something. */
  type Schedule = seq<(Pid, Handle)>

  function Run(s: State, schedule: Schedule, order: Order): State
    decreases |schedule|
  {
    if schedule == [] then s else Run(Step(s, schedule[0].0, schedule[0].1, order), schedule[1..], order)
  }

  // ----- the invariant -----

  predicate Creating(line: Line) {
    line == CreateArea || line == CreateTable || line == PublishTable || line == PublishArea
  }

  predicate Critical(line: Line) {
    line == SecondLook || Creating(line) || line == SlowAttachArea || line == SlowAttachTable || line == Unlock
  }

  /** Nothing has been created, and nothing is published. */
  predicate Nothing(s: State) {
    s.areas == {} && s.tables == map[] && s.tableHandle == None && s.areaHandle == None
  }

  /** The one pair is published. */
  predicate Published(s: State) {
    s.areaHandle.Some? && s.tableHandle.Some? &&
    s.areas == {s.areaHandle.value} && s.tables == map[s.tableHandle.value := s.areaHandle.value]
  }

  /** What is known about the shared state at each line of a backend. */
  predicate At(s: State, b: Backend) {
    match b.line
    case FirstLook => true
    case AwaitLock => true
    case SecondLook => true
    case CreateArea => Nothing(s)
    case CreateTable => b.area.Some? && s.(areas := {}) == s.(areas := {}, areaHandle := None, tableHandle := None, tables := map[])
      && s.areas == {b.area.value}
    case PublishTable => b.area.Some? && b.table.Some? && s.areaHandle == None && s.tableHandle == None
      && s.areas == {b.area.value} && s.tables == map[b.table.value := b.area.value]
    case PublishArea => b.area.Some? && b.table.Some? && s.areaHandle == None && s.tableHandle == b.table
      && s.areas == {b.area.value} && s.tables == map[b.table.value := b.area.value]
    case SlowAttachArea => Published(s)
    case SlowAttachTable => Published(s) && b.area == s.areaHandle
    case Unlock => Published(s) && b.area == s.areaHandle && b.table == s.tableHandle
    case FastAttachArea => Published(s)
    case FastAttachTable => Published(s) && b.area == s.areaHandle
    case Attached => Published(s) && b.area == s.areaHandle && b.table == s.tableHandle
    case Broken => false
  }

  ghost predicate Inv(s: State) {
    (forall p | p in s.backends :: At(s, s.backends[p])) &&
    (forall p | p in s.backends :: Critical(s.backends[p].line) <==> s.lock == Some(p)) &&
    (s.lock.Some? ==> s.lock.value in s.backends) &&
    (Nothing(s) || Published(s) || (s.lock.Some? && Creating(s.backends[s.lock.value].line)))
  }

  /** What another backend may rely on while this one moves: what is published stays, and outside the
      critical section nothing else is known. */
  lemma OthersKeep(s: State, s': State, b: Backend)
    requires At(s, b) && !Critical(b.line)
    requires Published(s) ==> Published(s') && s'.areaHandle == s.areaHandle && s'.tableHandle == s.tableHandle
    ensures At(s', b)
  {
  }

  lemma StepKeepsPublished(s: State, p: Pid, given: Handle)
    requires Inv(s)
    ensures var s' := Step(s, p, given, TableFirst);
      (s.areaHandle.Some? ==> s'.areaHandle == s.areaHandle) &&
      (s.tableHandle.Some? ==> s'.tableHandle == s.tableHandle) &&
      (Published(s) ==> Published(s'))
  {
  }

  /** What a step of `p` has to establish about `p` and the shared state. */
  predicate MoverOk(s: State, p: Pid) {
    (p in s.backends ==> At(s, s.backends[p]) && (Critical(s.backends[p].line) <==> s.lock == Some(p))) &&
    (s.lock.Some? ==> s.lock.value in s.backends) &&
    (Nothing(s) || Published(s) || (s.lock.Some? && s.lock.value in s.backends && Creating(s.backends[s.lock.value].line)))
  }

  lemma EntryOk(s: State, p: Pid, given: Handle)
    requires Inv(s)
    requires p in s.backends ==> var l := s.backends[p].line; l == FirstLook || l == AwaitLock || l == SecondLook
    ensures MoverOk(Step(s, p, given, TableFirst), p)
  {
  }

  lemma ExitOk(s: State, p: Pid, given: Handle)
    requires Inv(s)
    requires p in s.backends && var l := s.backends[p].line; l == Unlock || l == Attached || l == Broken
    ensures MoverOk(Step(s, p, given, TableFirst), p)
  {
  }

  lemma CreatorOk(s: State, p: Pid, given: Handle)
    requires Inv(s) && p in s.backends && Creating(s.backends[p].line)
    ensures MoverOk(Step(s, p, given, TableFirst), p)
  {
    assert At(s, s.backends[p]) && s.lock == Some(p);
  }

  lemma AttacherOk(s: State, p: Pid, given: Handle)
    requires Inv(s)
    requires p in s.backends &&
      var l := s.backends[p].line; l == SlowAttachArea || l == SlowAttachTable || l == FastAttachArea || l == FastAttachTable
    ensures MoverOk(Step(s, p, given, TableFirst), p)
  {
    assert At(s, s.backends[p]);
  }

  lemma MoverKeeps(s: State, p: Pid, given: Handle)
    requires Inv(s)
    ensures MoverOk(Step(s, p, given, TableFirst), p)
  {
    hide Inv, Step, MoverOk;
    if p !in s.backends || s.backends[p].line in {FirstLook, AwaitLock, SecondLook} {
      EntryOk(s, p, given);
    } else if Creating(s.backends[p].line) {
      CreatorOk(s, p, given);
    } else if s.backends[p].line in {Unlock, Attached, Broken} {
      ExitOk(s, p, given);
    } else {
      AttacherOk(s, p, given);
    }
  }

  lemma StepKeeps(s: State, p: Pid, given: Handle)
    requires Inv(s)
    ensures Inv(Step(s, p, given, TableFirst))
  {
    hide At, Step;
    var s' := Step(s, p, given, TableFirst);
    MoverKeeps(s, p, given);
    forall q | q in s'.backends && q != p
      ensures At(s', s'.backends[q]) && (Critical(s'.backends[q].line) <==> s'.lock == Some(q))
    {
      OtherBackend(s, p, given, q);
    }
  }

  lemma OtherBackend(s: State, p: Pid, given: Handle, q: Pid)
    requires Inv(s) && q != p && q in Step(s, p, given, TableFirst).backends
    ensures var s' := Step(s, p, given, TableFirst);
      At(s', s'.backends[q]) && (Critical(s'.backends[q].line) <==> s'.lock == Some(q))
  {
    hide Inv, At, Step;
    SameBackend(s, p, given, q);
    if s.lock == Some(q) {
      LockOwnerUndisturbed(s, p, given, q);
    } else {
      LocksOfOthers(s, p, given, q);
      InvAt(s, q);
      StepKeepsPublished(s, p, given);
      OthersKeep(s, Step(s, p, given, TableFirst), s.backends[q]);
    }
  }

  lemma InvAt(s: State, q: Pid)
    requires Inv(s) && q in s.backends
    ensures At(s, s.backends[q]) && (Critical(s.backends[q].line) <==> s.lock == Some(q))
  {
  }

  lemma SameBackend(s: State, p: Pid, given: Handle, q: Pid)
    requires q != p && q in Step(s, p, given, TableFirst).backends
    ensures q in s.backends && Step(s, p, given, TableFirst).backends[q] == s.backends[q]
  {
  }

  /** While another backend owns the lock, a step changes nothing but the mover's own place. */
  lemma LockOwnerUndisturbed(s: State, p: Pid, given: Handle, q: Pid)
    requires Inv(s) && q != p && q in s.backends && s.lock == Some(q)
    ensures var s' := Step(s, p, given, TableFirst);
      s'.lock == s.lock && At(s', s.backends[q]) && Critical(s.backends[q].line)
  {
    InvAt(s, q);
    if p in s.backends {
      InvAt(s, p);
    }
    var s' := Step(s, p, given, TableFirst);
    assert s' == s.(backends := s'.backends);
  }

  lemma LocksOfOthers(s: State, p: Pid, given: Handle, q: Pid)
    requires Inv(s) && q != p && q in s.backends && s.lock != Some(q)
    ensures Step(s, p, given, TableFirst).lock != Some(q) && !Critical(s.backends[q].line)
  {
    InvAt(s, q);
  }

  lemma {:induction false} RunKeeps(s: State, schedule: Schedule)
    requires Inv(s)
    ensures Inv(Run(s, schedule, TableFirst))
    decreases |schedule|
  {
    hide Inv, Step;
    if schedule != [] {
      StepKeeps(s, schedule[0].0, schedule[0].1);
      RunKeeps(Step(s, schedule[0].0, schedule[0].1, TableFirst), schedule[1..]);
    }
  }

  /** At most one area and one table exist; a visible area handle comes with the valid handle of a
      table inside that area; no attach was ever given a bad handle; at most one backend is between
      lock and unlock; and all attached backends hold the published pair. */
  ghost predicate Safe(s: State) {
    |s.areas| <= 1 && |s.tables| <= 1 &&
    (s.areaHandle.Some? ==> ValidTable(s, s.tableHandle, s.areaHandle) && s.areaHandle.value in s.areas) &&
    (forall p | p in s.backends :: !s.backends[p].line.Broken?) &&
    (forall p, q | p in s.backends && q in s.backends && Critical(s.backends[p].line) && Critical(s.backends[q].line) :: p == q) &&
    (forall p | p in s.backends && s.backends[p].line.Attached? ::
      s.areaHandle.Some? && s.backends[p].area == s.areaHandle && s.backends[p].table == s.tableHandle)
  }

  lemma CreatedOnce(s: State)
    requires Inv(s)
    ensures |s.areas| <= 1 && |s.tables| <= 1
    ensures s.areaHandle.Some? ==> ValidTable(s, s.tableHandle, s.areaHandle) && s.areaHandle.value in s.areas
  {
    if !Nothing(s) && !Published(s) {
      assert At(s, s.backends[s.lock.value]);
    }
  }

  lemma AttachedHoldPair(s: State, p: Pid)
    requires Inv(s) && p in s.backends
    ensures !s.backends[p].line.Broken?
    ensures s.backends[p].line.Attached? ==>
      s.areaHandle.Some? && s.backends[p].area == s.areaHandle && s.backends[p].table == s.tableHandle
  {
    assert At(s, s.backends[p]);
  }

  lemma InvIsSafe(s: State)
    requires Inv(s)
    ensures Safe(s)
  {
    hide At, ValidTable, Nothing, Published;
    CreatedOnce(s);
    forall p | p in s.backends
      ensures !s.backends[p].line.Broken?
      ensures s.backends[p].line.Attached? ==>
        s.areaHandle.Some? && s.backends[p].area == s.areaHandle && s.backends[p].table == s.tableHandle
    {
      AttachedHoldPair(s, p);
    }
  }

  /** Every interleaving of any number of backends is safe. */
  lemma CreationIsSafe(schedule: Schedule)
    ensures Safe(Run(INIT, schedule, TableFirst))
  {
    hide Run, Step;
    RunKeeps(INIT, schedule);
    InvIsSafe(Run(INIT, schedule, TableFirst));
  }

  lemma {:induction false} RunKeepsHandles(s: State, schedule: Schedule)
    requires Inv(s)
    ensures var s' := Run(s, schedule, TableFirst);
      (s.areaHandle.Some? ==> s'.areaHandle == s.areaHandle) && (s.tableHandle.Some? ==> s'.tableHandle == s.tableHandle)
    decreases |schedule|
  {
    hide Inv, Step;
    if schedule != [] {
      StepKeeps(s, schedule[0].0, schedule[0].1);
      StepKeepsPublished(s, schedule[0].0, schedule[0].1);
      RunKeepsHandles(Step(s, schedule[0].0, schedule[0].1, TableFirst), schedule[1..]);
    }
  }

  lemma {:induction false} RunConcat(s: State, first: Schedule, more: Schedule, order: Order)
    ensures Run(s, first + more, order) == Run(Run(s, first, order), more, order)
    decreases |first|
  {
    hide Step;
    if first == [] {
      assert first + more == more;
    } else {
      assert (first + more)[1..] == first[1..] + more;
      RunConcat(Step(s, first[0].0, first[0].1, order), first[1..], more, order);
    }
  }

  /** A handle that has been published is never changed by what comes later. */
  lemma PublishedHandlesAreFinal(first: Schedule, more: Schedule)
    ensures var s, s' := Run(INIT, first, TableFirst), Run(INIT, first + more, TableFirst);
      (s.areaHandle.Some? ==> s'.areaHandle == s.areaHandle) && (s.tableHandle.Some? ==> s'.tableHandle == s.tableHandle)
  {
    hide Run, Step;
    RunKeeps(INIT, first);
    RunKeepsHandles(Run(INIT, first, TableFirst), more);
    RunConcat(INIT, first, more, TableFirst);
  }

  /** Nobody waits for ever for want of a move: while a backend is on its way, some backend can take
      a step that changes the state. */
  lemma SomebodyCanMove(s: State, p: Pid)
    requires Inv(s) && p in s.backends && !s.backends[p].line.Attached?
    ensures exists q, given :: q in s.backends && !s.backends[q].line.Attached? && Step(s, q, given, TableFirst) != s
  {
    var q := if s.backends[p].line.AwaitLock? && s.lock.Some? then s.lock.value else p;
    assert At(s, s.backends[q]);
    var given: Handle := if s.areas == {} then 0 else 1;
    if s.backends[q].line.CreateTable? {
      given := 0;
      assert s.tables == map[];
    }
    var s' := Step(s, q, given, TableFirst);
    assert q in s'.backends && s'.backends[q].line != s.backends[q].line;
  }

  // ----- the three ways through -----

  lemma FastSteps(s: State, p: Pid)
    requires p in s.backends && s.backends[p].line.FirstLook?
    requires s.areaHandle.Some? && s.areaHandle.value in s.areas && ValidTable(s, s.tableHandle, s.areaHandle)
    ensures Run(s, [(p, 0), (p, 0), (p, 0)], TableFirst)
      == Goto(s, p, Backend(Attached, s.areaHandle, s.tableHandle))
  {
    hide Run;
    var m: Schedule := [(p, 0), (p, 0), (p, 0)];
    var s1 := Goto(s, p, s.backends[p].(line := FastAttachArea));
    var s2 := Goto(s, p, Backend(FastAttachTable, s.areaHandle, s.backends[p].table));
    var s3 := Goto(s, p, Backend(Attached, s.areaHandle, s.tableHandle));
    assert Step(s, p, 0, TableFirst) == s1;
    assert Step(s1, p, 0, TableFirst) == s2;
    assert Step(s2, p, 0, TableFirst) == s3;
    hide Step;
    OneStep(s, m, TableFirst);
    OneStep(s1, m[1..], TableFirst);
    OneStep(s2, m[1..][1..], TableFirst);
  }

  /** A backend that sees the published area at its first look attaches in three steps of its own and
      leaves everything else as it is, the lock too, whoever has it. */
  lemma FastPath(s: State, p: Pid)
    requires Inv(s) && p in s.backends && s.backends[p].line.FirstLook? && s.areaHandle.Some?
    ensures Run(s, [(p, 0), (p, 0), (p, 0)], TableFirst)
      == Goto(s, p, Backend(Attached, s.areaHandle, s.tableHandle))
  {
    hide Run, Inv;
    CreatedOnce(s);
    FastSteps(s, p);
  }

  /** What a backend does with the lock when it finds both handles published. */
  lemma SlowSteps(s: State, p: Pid)
    requires p in s.backends && s.backends[p].line.SecondLook?
    requires s.areaHandle.Some? && s.areaHandle.value in s.areas && ValidTable(s, s.tableHandle, s.areaHandle)
    ensures Run(s, [(p, 0), (p, 0), (p, 0), (p, 0)], TableFirst)
      == Goto(s, p, Backend(Attached, s.areaHandle, s.tableHandle)).(lock := None)
  {
    hide Run;
    var m: Schedule := [(p, 0), (p, 0), (p, 0), (p, 0)];
    var s2 := Goto(s, p, s.backends[p].(line := SlowAttachArea));
    var s3 := Goto(s, p, Backend(SlowAttachTable, s.areaHandle, s.backends[p].table));
    var s4 := Goto(s, p, Backend(Unlock, s.areaHandle, s.tableHandle));
    assert Step(s, p, 0, TableFirst) == s2;
    assert Step(s2, p, 0, TableFirst) == s3;
    assert Step(s3, p, 0, TableFirst) == s4;
    hide Step;
    OneStep(s, m, TableFirst);
    OneStep(s2, m[1..], TableFirst);
    OneStep(s3, m[1..][1..], TableFirst);
    LastStep(s4, m[1..][1..][1..], p);
  }

  lemma LastStep(s: State, m: Schedule, p: Pid)
    requires m == [(p, 0)] && p in s.backends && s.backends[p].line.Unlock?
    ensures Run(s, m, TableFirst) == Goto(s, p, s.backends[p].(line := Attached)).(lock := None)
  {
    OneStep(s, m, TableFirst);
  }

  /** One that comes too late for that but finds the area published when it has the lock attaches as
      well, and gives the lock back. */
  lemma SlowPath(s: State, p: Pid)
    requires Inv(s) && p in s.backends && s.backends[p].line.AwaitLock? && s.lock.None? && s.areaHandle.Some?
    ensures Run(s, [(p, 0), (p, 0), (p, 0), (p, 0), (p, 0)], TableFirst)
      == Goto(s, p, Backend(Attached, s.areaHandle, s.tableHandle))
  {
    hide Run, Inv;
    var m: Schedule := [(p, 0), (p, 0), (p, 0), (p, 0), (p, 0)];
    CreatedOnce(s);
    var s1 := Goto(s, p, s.backends[p].(line := SecondLook)).(lock := Some(p));
    assert Step(s, p, 0, TableFirst) == s1;
    hide Step, ValidTable;
    OneStep(s, m, TableFirst);
    assert m[1..] == [(p, 0), (p, 0), (p, 0), (p, 0)];
    SecondLookReady(s, s1);
    SlowSteps(s1, p);
  }

  lemma SecondLookReady(s: State, s1: State)
    requires s1 == s.(backends := s1.backends, lock := s1.lock) && ValidTable(s, s.tableHandle, s.areaHandle)
    ensures ValidTable(s1, s1.tableHandle, s1.areaHandle)
  {
  }

  /** One that finds nothing there, left alone, creates the area and the table in it, publishes both,
      and is attached to them. */
  lemma CreatingPath(s: State, p: Pid, given: Handle)
    requires p in s.backends && s.backends[p].line.AwaitLock? && s.lock.None? && Nothing(s)
    ensures Run(s, [(p, given), (p, given), (p, given), (p, given), (p, given), (p, given), (p, given)], TableFirst)
      == Goto(s, p, Backend(Attached, Some(given), Some(given)))
        .(areas := {given}, tables := map[given := given], areaHandle := Some(given), tableHandle := Some(given))
  {
    hide Run;
    var m: Schedule := [(p, given), (p, given), (p, given), (p, given), (p, given), (p, given), (p, given)];
    var s0 := s.(lock := Some(p));
    var s1 := Goto(s0, p, s.backends[p].(line := SecondLook));
    var s2 := Goto(s0, p, s.backends[p].(line := CreateArea));
    var s3 := Step(s2, p, given, TableFirst);
    var s4 := Step(s3, p, given, TableFirst);
    var s5 := Step(s4, p, given, TableFirst);
    var s6 := Step(s5, p, given, TableFirst);
    assert Step(s, p, given, TableFirst) == s1;
    assert Step(s1, p, given, TableFirst) == s2;
    OneStep(s, m, TableFirst);
    OneStep(s1, m[1..], TableFirst);
    OneStep(s2, m[1..][1..], TableFirst);
    OneStep(s3, m[1..][1..][1..], TableFirst);
    OneStep(s4, m[1..][1..][1..][1..], TableFirst);
    OneStep(s5, m[1..][1..][1..][1..][1..], TableFirst);
    OneStep(s6, m[1..][1..][1..][1..][1..][1..], TableFirst);
  }

  // ----- everybody gets attached -----

  /** How far a backend is from being attached. */
  function Distance(line: Line): nat {
    match line
    case FirstLook => 8
    case AwaitLock => 7
    case SecondLook => 6
    case CreateArea => 5
    case CreateTable => 4
    case PublishTable => 3
    case PublishArea => 2
    case SlowAttachArea => 3
    case SlowAttachTable => 2
    case Unlock => 1
    case FastAttachArea => 2
    case FastAttachTable => 1
    case Attached => 0
    case Broken => 0
  }

  /** No other backend has the lock. */
  predicate FreeFor(s: State, p: Pid) {
    s.lock.None? || s.lock == Some(p)
  }

  lemma SoloStep(s: State, p: Pid)
    requires Inv(s) && p in s.backends && !s.backends[p].line.Attached? && FreeFor(s, p)
    ensures var s' := Step(s, p, 0, TableFirst);
      p in s'.backends && FreeFor(s', p) && Distance(s'.backends[p].line) < Distance(s.backends[p].line) &&
      s'.backends == s.backends[p := s'.backends[p]]
  {
    InvAt(s, p);
  }

  /** Left alone with a free lock, a backend gets attached, and gives the lock back. */
  lemma {:induction false} SoloRun(s: State, p: Pid) returns (schedule: Schedule)
    requires Inv(s) && p in s.backends && FreeFor(s, p)
    ensures var s' := Run(s, schedule, TableFirst);
      Inv(s') && s'.lock == None && p in s'.backends && s'.backends[p].line.Attached? &&
      s'.backends == s.backends[p := s'.backends[p]]
    decreases Distance(s.backends[p].line)
  {
    hide Inv, Step, Distance;
    if s.backends[p].line.Attached? {
      schedule := [];
      InvAt(s, p);
      assert s.backends == s.backends[p := s.backends[p]];
    } else {
      var s' := Step(s, p, 0, TableFirst);
      SoloStep(s, p);
      StepKeeps(s, p, 0);
      var more := SoloRun(s', p);
      schedule := [(p, 0)] + more;
      assert schedule[1..] == more;
    }
  }

  function OnTheWay(s: State): set<Pid> {
    set p | p in s.backends && !s.backends[p].line.Attached?
  }

  /** From every state that keeps the invariant some schedule attaches every backend on its way. */
  lemma {:induction false} AllGetAttached(s: State) returns (schedule: Schedule)
    requires Inv(s)
    ensures var s' := Run(s, schedule, TableFirst);
      s'.backends.Keys == s.backends.Keys && forall p | p in s'.backends :: s'.backends[p].line.Attached?
    decreases OnTheWay(s)
  {
    hide Inv, Step, Run;
    if OnTheWay(s) == {} {
      schedule := [];
      assert Run(s, [], TableFirst) == s by {
        NoSteps(s);
      }
      forall p | p in s.backends ensures s.backends[p].line.Attached? {
        assert p !in OnTheWay(s);
      }
    } else {
      var p := NextUp(s);
      var first := SoloRun(s, p);
      var s' := Run(s, first, TableFirst);
      assert OnTheWay(s') == OnTheWay(s) - {p};
      var more := AllGetAttached(s');
      schedule := first + more;
      RunConcat(s, first, more, TableFirst);
    }
  }

  lemma NoSteps(s: State)
    ensures Run(s, [], TableFirst) == s
  {
  }

  /** The owner of the lock, or anybody when it is free. */
  lemma NextUp(s: State) returns (p: Pid)
    requires Inv(s) && OnTheWay(s) != {}
    ensures p in s.backends && p in OnTheWay(s) && FreeFor(s, p)
  {
    hide At;
    if s.lock.Some? {
      p := s.lock.value;
      InvAt(s, p);
    } else {
      p :| p in OnTheWay(s);
    }
  }

  /** From every reachable state some schedule attaches every backend that is on its way, and detaches
      none. */
  lemma EverybodyCanAttach(schedule: Schedule)
    ensures exists more :: var s, s' := Run(INIT, schedule, TableFirst), Run(INIT, schedule + more, TableFirst);
      s'.backends.Keys == s.backends.Keys && forall p | p in s'.backends :: s'.backends[p].line.Attached?
  {
    hide Run, Step;
    RunKeeps(INIT, schedule);
    var more := AllGetAttached(Run(INIT, schedule, TableFirst));
    RunConcat(INIT, schedule, more, TableFirst);
  }

  // ----- the order of the two writes -----

  /** The state in which backend 0, publishing the area first, has got that far and no further. */
  const HALF_PUBLISHED: State :=
    State(Some(0), None, {0}, map[0 := 0], Some(0), map[0 := Backend(PublishArea, Some(0), Some(0))])

  lemma CreatorGetsThere()
    ensures Run(INIT, [(0, 0), (0, 0), (0, 0), (0, 0), (0, 0), (0, 0), (0, 0)], AreaFirst) == HALF_PUBLISHED
  {
    hide Run;
    var m: Schedule := [(0, 0), (0, 0), (0, 0), (0, 0), (0, 0), (0, 0), (0, 0)];
    var s1 := INIT.(backends := map[0 := Backend(FirstLook, None, None)]);
    var s2 := INIT.(backends := map[0 := Backend(AwaitLock, None, None)]);
    var s3 := INIT.(lock := Some(0), backends := map[0 := Backend(SecondLook, None, None)]);
    var s4 := s3.(backends := map[0 := Backend(CreateArea, None, None)]);
    var s5 := s3.(areas := {0}, backends := map[0 := Backend(CreateTable, Some(0), None)]);
    var s6 := s5.(tables := map[0 := 0], backends := map[0 := Backend(PublishTable, Some(0), Some(0))]);
    assert Step(INIT, 0, 0, AreaFirst) == s1;
    assert Step(s1, 0, 0, AreaFirst) == s2;
    assert Step(s2, 0, 0, AreaFirst) == s3;
    assert Step(s3, 0, 0, AreaFirst) == s4;
    assert Step(s4, 0, 0, AreaFirst) == s5;
    assert Step(s5, 0, 0, AreaFirst) == s6;
    assert Step(s6, 0, 0, AreaFirst) == HALF_PUBLISHED;
    OneStep(INIT, m, AreaFirst);
    OneStep(s1, m[1..], AreaFirst);
    OneStep(s2, m[1..][1..], AreaFirst);
    OneStep(s3, m[1..][1..][1..], AreaFirst);
    OneStep(s4, m[1..][1..][1..][1..], AreaFirst);
    OneStep(s5, m[1..][1..][1..][1..][1..], AreaFirst);
    OneStep(s6, m[1..][1..][1..][1..][1..][1..], AreaFirst);
  }

  lemma OtherBreaks()
    ensures var s := Run(HALF_PUBLISHED, [(1, 0), (1, 0), (1, 0), (1, 0)], AreaFirst);
      1 in s.backends && s.backends[1].line.Broken?
  {
    hide Run;
    var m: Schedule := [(1, 0), (1, 0), (1, 0), (1, 0)];
    var t1 := Step(HALF_PUBLISHED, 1, 0, AreaFirst);
    var t2 := Step(t1, 1, 0, AreaFirst);
    assert t2.backends[1] == Backend(FastAttachArea, None, None);
    var t3 := Step(t2, 1, 0, AreaFirst);
    assert t3.backends[1] == Backend(FastAttachTable, Some(0), None) && t3.tableHandle == None;
    var t4 := Step(t3, 1, 0, AreaFirst);
    assert t4.backends[1].line.Broken?;
    OneStep(HALF_PUBLISHED, m, AreaFirst);
    OneStep(t1, m[1..], AreaFirst);
    OneStep(t2, m[1..][1..], AreaFirst);
    OneStep(t3, m[1..][1..][1..], AreaFirst);
  }

  /** The order of the two writes matters: with the area published first there is an interleaving in
      which a backend attaches without a table handle. */
  lemma AreaFirstFails()
    ensures exists schedule :: !Safe(Run(INIT, schedule, AreaFirst))
  {
    hide Run, Step;
    var creator: Schedule := [(0, 0), (0, 0), (0, 0), (0, 0), (0, 0), (0, 0), (0, 0)];
    var other: Schedule := [(1, 0), (1, 0), (1, 0), (1, 0)];
    CreatorGetsThere();
    OtherBreaks();
    RunConcat(INIT, creator, other, AreaFirst);
    assert !Safe(Run(INIT, creator + other, AreaFirst));
  }

  lemma OneStep(s: State, schedule: Schedule, order: Order)
    requires schedule != []
    ensures Run(s, schedule, order) == Run(Step(s, schedule[0].0, schedule[0].1, order), schedule[1..], order)
    ensures |schedule| == 1 ==> Run(s, schedule, order) == Step(s, schedule[0].0, schedule[0].1, order)
  {
    hide Step;
  }
}
