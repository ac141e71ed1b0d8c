/**
 * `COWList` (cow.go) under every interleaving of any number of threads: the small steps that its methods take, and
 * the atomic append-only list that they implement.
 */
module CowMachine {
  import opened Runtime

  type Tid = nat

  /** The address of a list. */
  type Ref = nat

  /** The dynamic types that the callback registries store. */
  datatype GoType = MergeOperatorWrapper | ComparatorWrapper | CompactionFilterWrapper | SliceTransformWrapper

  /** An `interface{}` value: its dynamic type and the object it refers to. */
  datatype Item = Item(typ: GoType, target: nat)

  datatype Request = Append(item: Item) | Get(index: int)

  /** `OutOfRange` is the panic of `list[index]`. */
  datatype Response = At(at: nat) | Found(item: Item) | OutOfRange

  /** What a caller sees. Every call has a number of its own. */
  datatype Event =
    | Call(tid: Tid, op: nat, req: Request)
    | Return(tid: Tid, op: nat, req: Request, resp: Response)

  // ----- the small steps -----

  /** Where a thread is: each constructor names the statement that it has completed last. */
  datatype Pc =
    | Idle
    | Called(op: nat, req: Request)
    | Locked(op: nat, item: Item)
    | Loaded(op: nat, item: Item, list: Ref)
    | Copying(op: nat, item: Item, list: Ref, newList: Ref, k: nat)
    | Filled(op: nat, item: Item, list: Ref, newList: Ref)
    | Stored(op: nat, item: Item, index: nat)
    | Unlocked(op: nat, item: Item, index: nat)
    | Read(op: nat, wanted: int, list: Ref)

  datatype State = State(heap: map<Ref, seq<Option<Item>>>, v: Ref, mu: Option<Tid>, pcs: map<Tid, Pc>, nextOp: nat)

  /** A thread enters a method, or executes its next statement (`ref` is the address that `make` obtains, if it is called). */
  datatype Action = Invoke(req: Request) | Advance(ref: Ref)

  function PcOf(s: State, t: Tid): Pc {
    if t in s.pcs then s.pcs[t] else Idle
  }

  function ListAt(s: State, r: Ref): seq<Option<Item>> {
    if r in s.heap then s.heap[r] else []
  }

  function Lookup(list: seq<Option<Item>>, i: int): Response {
    if 0 <= i < |list| && list[i].Some? then Found(list[i].value) else OutOfRange
  }

  function Write(s: State, r: Ref, i: nat, x: Option<Item>): State
    requires i < |ListAt(s, r)|
  {
    s.(heap := s.heap[r := ListAt(s, r)[i := x]])
  }

  function Move(s: State, t: Tid, pc: Pc): State {
    s.(pcs := s.pcs[t := pc])
  }

  /** One statement of one thread, and what the caller sees of it; none if it cannot be taken. */
  function Step(s: State, t: Tid, a: Action): Option<(State, seq<Event>)> {
    if a.Invoke? then
      if PcOf(s, t).Idle? then
        Some((Move(s, t, Called(s.nextOp, a.req)).(nextOp := s.nextOp + 1), [Call(t, s.nextOp, a.req)]))
      else None
    else
      match PcOf(s, t)
      case Idle => None
      case Called(op, Append(x)) =>
        if s.mu.None? then Some((Move(s, t, Locked(op, x)).(mu := Some(t)), [])) else None
      case Called(op, Get(i)) => Some((Move(s, t, Read(op, i, s.v)), []))
      case Locked(op, x) => Some((Move(s, t, Loaded(op, x, s.v)), []))
      case Loaded(op, x, list) =>
        if a.ref in s.heap then None
        else
          var made := s.(heap := s.heap[a.ref := seq(|ListAt(s, list)| + 1, _ => None)]);
          Some((Move(made, t, Copying(op, x, list, a.ref, 0)), []))
      case Copying(op, x, list, newList, k) =>
        if k < |ListAt(s, list)| then
          if k >= |ListAt(s, newList)| then None
          else Some((Move(Write(s, newList, k, ListAt(s, list)[k]), t, Copying(op, x, list, newList, k + 1)), []))
        else
          if |ListAt(s, newList)| == 0 then None
          else Some((Move(Write(s, newList, |ListAt(s, newList)| - 1, Some(x)), t, Filled(op, x, list, newList)), []))
      case Filled(op, x, list, newList) =>
        if |ListAt(s, newList)| == 0 then None
        else Some((Move(s, t, Stored(op, x, |ListAt(s, newList)| - 1)).(v := newList), []))
      case Stored(op, x, index) => Some((Move(s, t, Unlocked(op, x, index)).(mu := None), []))
      case Unlocked(op, x, index) => Some((Move(s, t, Idle), [Return(t, op, Append(x), At(index))]))
      case Read(op, i, list) => Some((Move(s, t, Idle), [Return(t, op, Get(i), Lookup(ListAt(s, list), i))]))
  }

  /** `NewCOWList` has stored an empty list. */
  const INIT := State(map[0 := []], 0, None, map[], 0)

  /** A schedule says which thread moves next, and how. */
  type Schedule = seq<(Tid, Action)>

  /** The state and the events that a schedule leads to, if every move in it can be taken. */
  function Run(sched: Schedule): Option<(State, seq<Event>)> {
    if sched == [] then Some((INIT, []))
    else
      var last := |sched| - 1;
      match Run(sched[..last])
      case None => None
      case Some((s, tr)) =>
        match Step(s, sched[last].0, sched[last].1)
        case None => None
        case Some((s', ev)) => Some((s', tr + ev))
  }

  // ----- the invariant -----

  ghost predicate Complete(list: seq<Option<Item>>) {
    forall i :: 0 <= i < |list| ==> list[i].Some?
  }

  /** What holds of a thread at each statement. */
  ghost predicate ThreadInv(s: State, t: Tid) {
    match PcOf(s, t)
    case Idle => true
    case Called(_, _) => true
    case Locked(_, _) => s.mu == Some(t)
    case Loaded(_, _, list) => s.mu == Some(t) && list == s.v
    case Copying(_, _, list, newList, k) =>
      && s.mu == Some(t) && list == s.v && newList in s.heap && newList != s.v
      && |ListAt(s, newList)| == |ListAt(s, s.v)| + 1
      && k <= |ListAt(s, s.v)|
      && ListAt(s, newList)[..k] == ListAt(s, s.v)[..k]
    case Filled(_, x, list, newList) =>
      && s.mu == Some(t) && list == s.v && newList in s.heap && newList != s.v
      && ListAt(s, newList) == ListAt(s, s.v) + [Some(x)]
    case Stored(_, _, _) => s.mu == Some(t)
    case Unlocked(_, _, _) => true
    case Read(_, _, list) => list in s.heap && Complete(ListAt(s, list))
  }

  ghost predicate Critical(pc: Pc) {
    pc.Locked? || pc.Loaded? || pc.Copying? || pc.Filled? || pc.Stored?
  }

  /** The list under construction by the thread, if any. */
  ghost predicate Builds(pc: Pc, r: Ref) {
    (pc.Copying? || pc.Filled?) && pc.newList == r
  }

  ghost predicate Inv(s: State) {
    && s.v in s.heap
    && Complete(ListAt(s, s.v))
    && (s.mu.Some? ==> Critical(PcOf(s, s.mu.value)))
    && (forall t: Tid :: ThreadInv(s, t))
    && (forall t: Tid, u: Tid :: PcOf(s, u).Read? ==> !Builds(PcOf(s, t), PcOf(s, u).list))
  }

  lemma {:induction false} StepKeepsThreadInv(s: State, t: Tid, a: Action, u: Tid)
    requires Inv(s) && Step(s, t, a).Some?
    ensures ThreadInv(Step(s, t, a).value.0, u)
  {
    var s' := Step(s, t, a).value.0;
    assert ThreadInv(s, t) && ThreadInv(s, u);
    if u != t {
      assert PcOf(s', u) == PcOf(s, u);
      assert PcOf(s, u).Read? ==> !Builds(PcOf(s, t), PcOf(s, u).list);
    }
  }

  lemma {:induction false} StepKeepsSeparation(s: State, t: Tid, a: Action, b: Tid, u: Tid)
    requires Inv(s) && Step(s, t, a).Some?
    ensures var s' := Step(s, t, a).value.0;
            PcOf(s', u).Read? ==> !Builds(PcOf(s', b), PcOf(s', u).list)
  {
    assert ThreadInv(s, u) && ThreadInv(s, b) && ThreadInv(s, t);
    assert PcOf(s, u).Read? ==> !Builds(PcOf(s, b), PcOf(s, u).list);
  }

  lemma {:induction false} StepKeepsInv(s: State, t: Tid, a: Action)
    requires Inv(s) && Step(s, t, a).Some?
    ensures Inv(Step(s, t, a).value.0)
  {
    var s' := Step(s, t, a).value.0;
    assert ThreadInv(s, t);
    assert s.mu.Some? ==> ThreadInv(s, s.mu.value);
    assert s'.v in s'.heap && Complete(ListAt(s', s'.v)) && (s'.mu.Some? ==> Critical(PcOf(s', s'.mu.value)));
    forall u: Tid ensures ThreadInv(s', u) {
      StepKeepsThreadInv(s, t, a, u);
    }
    forall b: Tid, u: Tid | PcOf(s', u).Read? ensures !Builds(PcOf(s', b), PcOf(s', u).list) {
      StepKeepsSeparation(s, t, a, b, u);
    }
  }
}
