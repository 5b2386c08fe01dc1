/** JSON values as picojson stores them. */
module JsonValue {
  import opened ByteStrings

  const INT64_MIN: int := -0x8000_0000_0000_0000
  const INT64_MAX: int := 0x7fff_ffff_ffff_ffff

  predicate IsInt64(i: int) {
    INT64_MIN <= i <= INT64_MAX
  }

  /** `picojson::value`. An object is a `std::map`, so two objects are equal when they map the same
      keys to equal values. `Float` stands for a double and keeps the literal it was read from:
      nothing here interprets it (see `DoubleFormat`). */
  datatype Value =
    | Null
    | Bool(b: bool)
    | Int(i: int)
    | Float(literal: Bytes)
    | Str(s: Bytes)
    | Arr(items: seq<Value>)
    | Obj(members: map<Bytes, Value>)

  /** How `snprintf` prints a double: not modelled, so every function that prints takes it as an
      argument and every theorem holds for all of them. */
  type DoubleFormat = Bytes -> Bytes

  /** No double anywhere, and every integer is one an `int64_t` can hold. */
  predicate DoubleFree(v: Value) {
    match v
    case Int(i) => IsInt64(i)
    case Float(_) => false
    case Arr(items) => forall i | 0 <= i < |items| :: DoubleFree(items[i])
    case Obj(members) => forall k | k in members :: DoubleFree(members[k])
    case _ => true
  }

  /** What the parser's depth counter lets through when it starts at `d`: an array uses one unit for
      its items, an object needs a unit to be left but does not use it. */
  predicate FitsDepth(v: Value, d: nat) {
    match v
    case Arr(items) => d > 0 && forall i | 0 <= i < |items| :: FitsDepth(items[i], d - 1)
    case Obj(members) => d > 0 && forall k | k in members :: FitsDepth(members[k], d)
    case _ => true
  }

  /** A larger budget never hurts. */
  lemma {:induction false} FitsMore(v: Value, d: nat, e: nat)
    requires FitsDepth(v, d) && d <= e
    ensures FitsDepth(v, e)
  {
    match v
    case Arr(items) =>
      forall i | 0 <= i < |items| ensures FitsDepth(items[i], e - 1) {
        FitsMore(items[i], d - 1, e - 1);
      }
    case Obj(members) =>
      forall k | k in members ensures FitsDepth(members[k], e) {
        FitsMore(members[k], d, e);
      }
    case _ =>
  }

  /** Every value fits some budget. */
  lemma {:induction false} FitsSome(v: Value) returns (d: nat)
    ensures FitsDepth(v, d)
  {
    match v
    case Arr(items) =>
      d := 0;
      for i := 0 to |items|
        invariant forall j | 0 <= j < i :: FitsDepth(items[j], d)
      {
        var e := FitsSome(items[i]);
        forall j | 0 <= j < i ensures FitsDepth(items[j], d + e) {
          FitsMore(items[j], d, d + e);
        }
        FitsMore(items[i], e, d + e);
        d := d + e;
      }
      d := d + 1;
    case Obj(members) =>
      d := 1;
      var done: set<Bytes> := {};
      while done != members.Keys
        invariant done <= members.Keys && d > 0
        invariant forall k | k in done :: FitsDepth(members[k], d)
        decreases members.Keys - done
      {
        assert members.Keys - done != {};
        var k :| k in members.Keys - done;
        var e := FitsSome(members[k]);
        forall j | j in done ensures FitsDepth(members[j], d + e) {
          FitsMore(members[j], d, d + e);
        }
        FitsMore(members[k], e, d + e);
        d, done := d + e, done + {k};
      }
    case _ => d := 0;
  }

  /** One edge of the path from a value down to something inside it. */
  datatype Step = Index(i: nat) | Key(k: Bytes)

  predicate StepOk(v: Value, step: Step) {
    match step
    case Index(i) => v.Arr? && i < |v.items|
    case Key(k) => v.Obj? && k in v.members
  }

  function Child(v: Value, step: Step): Value
    requires StepOk(v, step)
  {
    match step
    case Index(i) => v.items[i]
    case Key(k) => v.members[k]
  }

  predicate PathOk(v: Value, path: seq<Step>) {
    path == [] || (StepOk(v, path[0]) && PathOk(Child(v, path[0]), path[1..]))
  }

  function At(v: Value, path: seq<Step>): Value
    requires PathOk(v, path)
  {
    if path == [] then v else At(Child(v, path[0]), path[1..])
  }

  /** How many of the values strictly above the end of the path are arrays. */
  function ArraysAbove(path: seq<Step>): nat {
    if path == [] then 0 else (if path[0].Index? then 1 else 0) + ArraysAbove(path[1..])
  }

  predicate IsContainer(v: Value) {
    v.Arr? || v.Obj?
  }

  /** The budget restated over root-to-leaf paths: no array or object sits beneath `d` arrays. */
  ghost predicate ShallowContainers(v: Value, d: nat) {
    forall path | PathOk(v, path) && IsContainer(At(v, path)) :: ArraysAbove(path) < d
  }

  lemma {:induction false} FitsOnPath(v: Value, d: nat, path: seq<Step>)
    requires FitsDepth(v, d) && PathOk(v, path) && IsContainer(At(v, path))
    ensures ArraysAbove(path) < d
    decreases |path|
  {
    if path != [] {
      FitsOnPath(Child(v, path[0]), if path[0].Index? then d - 1 else d, path[1..]);
    }
  }

  lemma {:induction false} ShallowChild(v: Value, d: nat, step: Step)
    requires ShallowContainers(v, d) && StepOk(v, step) && d > 0
    ensures ShallowContainers(Child(v, step), if step.Index? then d - 1 else d)
  {
    var e := if step.Index? then d - 1 else d;
    forall path | PathOk(Child(v, step), path) && IsContainer(At(Child(v, step), path))
      ensures ArraysAbove(path) < e
    {
      var longer := [step] + path;
      assert longer[1..] == path;
      assert PathOk(v, longer) && At(v, longer) == At(Child(v, step), path);
      assert ArraysAbove(longer) == (if step.Index? then 1 else 0) + ArraysAbove(path);
    }
  }

  /** The recursive budget and the path condition are the same predicate. */
  lemma {:induction false} FitsIffShallow(v: Value, d: nat)
    ensures FitsDepth(v, d) <==> ShallowContainers(v, d)
  {
    if FitsDepth(v, d) {
      forall path | PathOk(v, path) && IsContainer(At(v, path)) ensures ArraysAbove(path) < d {
        FitsOnPath(v, d, path);
      }
    }
    if ShallowContainers(v, d) {
      if IsContainer(v) {
        assert PathOk(v, []) && At(v, []) == v;
        assert ArraysAbove([]) < d;
      }
      match v
      case Arr(items) =>
        forall i | 0 <= i < |items| ensures FitsDepth(items[i], d - 1) {
          ShallowChild(v, d, Index(i));
          FitsIffShallow(items[i], d - 1);
        }
      case Obj(members) =>
        forall k | k in members ensures FitsDepth(members[k], d) {
          ShallowChild(v, d, Key(k));
          FitsIffShallow(members[k], d);
        }
      case _ =>
    }
  }
}
