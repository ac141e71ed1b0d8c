/**
 * `RangeTombstoneIterator.Next` (extend_inner.go) called by any number of goroutines that share one iterator. The
 * cursor moves under the lock; the fields are fetched after it.
 */
module TombstoneCursor {
  import opened Runtime
  import opened Tombstones

  type Tid = nat

  datatype Event = Call(tid: Tid, op: nat) | Acquire(tid: Tid, op: nat) | Return(tid: Tid, op: nat, result: Option<Tombstone>)

  /** Where a thread is: each constructor names the statement that it has completed last. */
  datatype Pc =
    | Idle
    | Called(op: nat)
    | Locked(op: nat)
    | Loaded(op: nat, at: nat)
    | Bumped(op: nat, at: nat, ok: bool)
    | Unlocked(op: nat, at: nat, ok: bool)
    | GotStart(op: nat, at: nat, part: Tombstone)
    | GotEnd(op: nat, at: nat, part: Tombstone)
    | GotTs(op: nat, at: nat, part: Tombstone)
    | GotSeq(op: nat, at: nat, part: Tombstone)

  datatype State = State(c: seq<Tombstone>, size: nat, cur: nat, mu: Option<Tid>, pcs: map<Tid, Pc>, nextOp: nat)

  const EMPTY := Tombstone([], [], 0, [])

  function PcOf(s: State, t: Tid): Pc {
    if t in s.pcs then s.pcs[t] else Idle
  }

  function Move(s: State, t: Tid, pc: Pc): State {
    s.(pcs := s.pcs[t := pc])
  }

  /** Whether the statement after `pc` indexes the list, and where. */
  ghost predicate Indexes(pc: Pc, at: nat) {
    match pc
    case Unlocked(_, a, ok) => ok && a == at
    case GotStart(_, a, _) => a == at
    case GotEnd(_, a, _) => a == at
    case GotTs(_, a, _) => a == at
    case _ => false
  }

  /** The next statement of one thread; none if it has to wait (or would index out of range). */
  function Step(s: State, t: Tid): Option<(State, seq<Event>)> {
    match PcOf(s, t)
    case Idle => Some((Move(s, t, Called(s.nextOp)).(nextOp := s.nextOp + 1), [Call(t, s.nextOp)]))
    case Called(op) =>
      if s.mu.None? then Some((Move(s, t, Locked(op)).(mu := Some(t)), [Acquire(t, op)])) else None
    case Locked(op) => Some((Move(s, t, Loaded(op, s.cur)), []))
    case Loaded(op, at) =>
      if at < s.size then Some((Move(s, t, Bumped(op, at, true)).(cur := s.cur + 1), []))
      else Some((Move(s, t, Bumped(op, at, false)), []))
    case Bumped(op, at, ok) => Some((Move(s, t, Unlocked(op, at, ok)).(mu := None), []))
    case Unlocked(op, at, ok) =>
      if !ok then Some((Move(s, t, Idle), [Return(t, op, None)]))
      else if at >= |s.c| then None
      else Some((Move(s, t, GotStart(op, at, EMPTY.(startKey := s.c[at].startKey))), []))
    case GotStart(op, at, part) =>
      if at >= |s.c| then None else Some((Move(s, t, GotEnd(op, at, part.(endKey := s.c[at].endKey))), []))
    case GotEnd(op, at, part) =>
      if at >= |s.c| then None else Some((Move(s, t, GotTs(op, at, part.(ts := s.c[at].ts))), []))
    case GotTs(op, at, part) =>
      if at >= |s.c| then None else Some((Move(s, t, GotSeq(op, at, part.(seqNo := s.c[at].seqNo))), []))
    case GotSeq(op, at, part) => Some((Move(s, t, Idle), [Return(t, op, Some(part))]))
  }

  function Init(list: seq<Tombstone>): State {
    State(list, |list|, 0, None, map[], 0)
  }

  /** A schedule says which thread moves next. */
  function Run(list: seq<Tombstone>, sched: seq<Tid>): Option<(State, seq<Event>)> {
    if sched == [] then Some((Init(list), []))
    else
      var last := |sched| - 1;
      match Run(list, sched[..last])
      case None => None
      case Some((s, tr)) =>
        match Step(s, sched[last])
        case None => None
        case Some((s', ev)) => Some((s', tr + ev))
  }

  /** The calls in the order in which they got the lock. */
  function LockOrder(tr: seq<Event>): seq<nat> {
    if tr == [] then []
    else
      var last := |tr| - 1;
      LockOrder(tr[..last]) + if tr[last].Acquire? then [tr[last].op] else []
  }

  /** What the k-th call to get the lock is owed. */
  function Owed(list: seq<Tombstone>, k: nat): Option<Tombstone> {
    if k < |list| then Some(list[k]) else None
  }

  // ----- the invariant -----

  ghost predicate Ranked(order: seq<nat>, op: nat, k: int) {
    0 <= k < |order| && order[k] == op
  }

  /** The call got the lock as number `k`, and knows what it is owed. */
  ghost predicate Knows(list: seq<Tombstone>, order: seq<nat>, op: nat, at: nat, ok: bool) {
    exists k :: Ranked(order, op, k) && ok == (k < |list|) && (ok ==> at == k)
  }

  ghost predicate Critical(pc: Pc) {
    pc.Locked? || pc.Loaded? || pc.Bumped?
  }

  function Least(a: int, b: int): int {
    if a < b then a else b
  }

  /** The cursor counts the calls that got the lock; the one inside may not have moved it yet. */
  ghost predicate CursorOk(s: State, order: seq<nat>) {
    if s.mu.None? then s.cur == Least(|order|, |s.c|)
    else
      var pc := PcOf(s, s.mu.value);
      && Critical(pc)
      && Ranked(order, pc.op, |order| - 1)
      && (pc.Bumped? ==> s.cur == Least(|order|, |s.c|))
      && (!pc.Bumped? ==> s.cur == Least(|order| - 1, |s.c|))
  }

  ghost predicate Part(list: seq<Tombstone>, at: nat, part: Tombstone, fields: nat) {
    && at < |list|
    && (fields >= 1 ==> part.startKey == list[at].startKey)
    && (fields >= 2 ==> part.endKey == list[at].endKey)
    && (fields >= 3 ==> part.ts == list[at].ts)
    && (fields >= 4 ==> part.seqNo == list[at].seqNo)
  }

  ghost predicate ThreadInv(s: State, order: seq<nat>, t: Tid) {
    match PcOf(s, t)
    case Idle => true
    case Called(op) => op !in order
    case Locked(_) => s.mu == Some(t)
    case Loaded(_, at) => s.mu == Some(t) && at == s.cur
    case Bumped(op, at, ok) => s.mu == Some(t) && Knows(s.c, order, op, at, ok)
    case Unlocked(op, at, ok) => Knows(s.c, order, op, at, ok)
    case GotStart(op, at, part) => Knows(s.c, order, op, at, true) && Part(s.c, at, part, 1)
    case GotEnd(op, at, part) => Knows(s.c, order, op, at, true) && Part(s.c, at, part, 2)
    case GotTs(op, at, part) => Knows(s.c, order, op, at, true) && Part(s.c, at, part, 3)
    case GotSeq(op, at, part) => Knows(s.c, order, op, at, true) && Part(s.c, at, part, 4)
  }

  ghost predicate Busy(s: State, op: nat) {
    exists t: Tid :: !PcOf(s, t).Idle? && PcOf(s, t).op == op
  }

  ghost predicate Returned(tr: seq<Event>, op: nat) {
    exists p :: 0 <= p < |tr| && tr[p].Return? && tr[p].op == op
  }

  ghost predicate Distinct(order: seq<nat>) {
    forall i, j :: 0 <= i < j < |order| ==> order[i] != order[j]
  }

  /** A call that got the lock is at work or has returned. */
  ghost predicate OrderKnown(s: State, tr: seq<Event>) {
    forall i :: 0 <= i < |LockOrder(tr)| ==>
      LockOrder(tr)[i] < s.nextOp && (Busy(s, LockOrder(tr)[i]) || Returned(tr, LockOrder(tr)[i]))
  }

  ghost predicate PendingOk(s: State, tr: seq<Event>, t: Tid) {
    !PcOf(s, t).Idle? ==> PcOf(s, t).op < s.nextOp && !Returned(tr, PcOf(s, t).op)
  }

  ghost predicate DistinctPending(s: State) {
    forall t: Tid, u: Tid :: t != u && !PcOf(s, t).Idle? && !PcOf(s, u).Idle? ==> PcOf(s, t).op != PcOf(s, u).op
  }

  ghost predicate DistinctReturns(tr: seq<Event>) {
    forall p, q :: 0 <= p < q < |tr| && tr[p].Return? && tr[q].Return? ==> tr[p].op != tr[q].op
  }

  ghost predicate ReturnsKnown(s: State, tr: seq<Event>) {
    forall p :: 0 <= p < |tr| && tr[p].Return? ==> tr[p].op < s.nextOp
  }

  /** Every call has a number of its own, gets the lock at most once, and returns at most once. */
  ghost predicate OpsOk(s: State, tr: seq<Event>) {
    && Distinct(LockOrder(tr))
    && OrderKnown(s, tr)
    && (forall t: Tid :: PendingOk(s, tr, t))
    && DistinctPending(s)
    && DistinctReturns(tr)
    && ReturnsKnown(s, tr)
  }

  ghost predicate ReturnOk(list: seq<Tombstone>, order: seq<nat>, e: Event) {
    e.Return? ==> exists k :: Ranked(order, e.op, k) && e.result == Owed(list, k)
  }

  ghost predicate Inv(s: State, tr: seq<Event>) {
    var order := LockOrder(tr);
    && s.size == |s.c|
    && CursorOk(s, order)
    && (forall t: Tid :: ThreadInv(s, order, t))
    && (forall e :: e in tr ==> ReturnOk(s.c, order, e))
    && OpsOk(s, tr)
  }

  // ----- preservation -----

  lemma {:induction false} LockOrderAppend(tr: seq<Event>, ev: seq<Event>)
    requires |ev| <= 1
    ensures LockOrder(tr + ev) == LockOrder(tr) + if ev != [] && ev[0].Acquire? then [ev[0].op] else []
  {
    if ev == [] {
      assert tr + ev == tr;
    } else {
      assert (tr + ev)[..|tr|] == tr;
    }
  }

  lemma {:induction false} KnowsGrows(list: seq<Tombstone>, order: seq<nat>, more: seq<nat>, op: nat, at: nat, ok: bool)
    requires Knows(list, order, op, at, ok)
    ensures Knows(list, order + more, op, at, ok)
  {
    var k :| Ranked(order, op, k) && ok == (k < |list|) && (ok ==> at == k);
    assert Ranked(order + more, op, k);
  }

  /** The other threads only see the lock order grow. */
  lemma {:induction false} OthersKeep(s: State, s': State, order: seq<nat>, more: seq<nat>, u: Tid)
    requires ThreadInv(s, order, u) && PcOf(s', u) == PcOf(s, u) && s'.c == s.c
    requires s.mu == Some(u) ==> s'.mu == s.mu && s'.cur == s.cur
    requires PcOf(s, u).Called? ==> PcOf(s, u).op !in more
    ensures ThreadInv(s', order + more, u)
  {
    match PcOf(s, u)
    case Bumped(op, at, ok) => KnowsGrows(s.c, order, more, op, at, ok);
    case Unlocked(op, at, ok) => KnowsGrows(s.c, order, more, op, at, ok);
    case GotStart(op, at, _) => KnowsGrows(s.c, order, more, op, at, true);
    case GotEnd(op, at, _) => KnowsGrows(s.c, order, more, op, at, true);
    case GotTs(op, at, _) => KnowsGrows(s.c, order, more, op, at, true);
    case GotSeq(op, at, _) => KnowsGrows(s.c, order, more, op, at, true);
    case _ =>
  }

  lemma {:induction false} LoadedKnows(s: State, order: seq<nat>, t: Tid)
    requires s.size == |s.c| && CursorOk(s, order) && ThreadInv(s, order, t) && PcOf(s, t).Loaded?
    ensures Knows(s.c, order, PcOf(s, t).op, PcOf(s, t).at, PcOf(s, t).at < |s.c|)
  {
    assert Ranked(order, PcOf(s, t).op, |order| - 1);
  }

  /** The thread that moves carries on what it knows. */
  lemma {:induction false} MoverKeeps(s: State, order: seq<nat>, t: Tid)
    requires s.size == |s.c| && CursorOk(s, order) && ThreadInv(s, order, t)
    requires Step(s, t).Some? && !PcOf(s, t).Idle? && !PcOf(s, t).Called?
    ensures ThreadInv(Step(s, t).value.0, order, t)
  {
    if PcOf(s, t).Loaded? {
      LoadedKnows(s, order, t);
    }
  }

  lemma {:induction false} StepKeepsThreadInv(s: State, tr: seq<Event>, t: Tid, u: Tid)
    requires Inv(s, tr) && Step(s, t).Some?
    ensures ThreadInv(Step(s, t).value.0, LockOrder(tr + Step(s, t).value.1), u)
  {
    var (s', ev) := Step(s, t).value;
    var order := LockOrder(tr);
    LockOrderAppend(tr, ev);
    var more := if ev != [] && ev[0].Acquire? then [ev[0].op] else [];
    assert ThreadInv(s, order, t) && ThreadInv(s, order, u);
    if u != t {
      OthersKeep(s, s', order, more, u);
    } else if !PcOf(s, t).Idle? && !PcOf(s, t).Called? {
      assert order + more == order;
      MoverKeeps(s, order, t);
    }
  }

  lemma {:induction false} StepKeepsReturns(s: State, tr: seq<Event>, t: Tid, e: Event)
    requires Inv(s, tr) && Step(s, t).Some? && e in tr + Step(s, t).value.1
    ensures ReturnOk(s.c, LockOrder(tr + Step(s, t).value.1), e)
  {
    var (s', ev) := Step(s, t).value;
    var order := LockOrder(tr);
    LockOrderAppend(tr, ev);
    assert ThreadInv(s, order, t);
    if e in tr {
      assert ReturnOk(s.c, order, e);
      if e.Return? {
        var k :| Ranked(order, e.op, k) && e.result == Owed(s.c, k);
        assert Ranked(LockOrder(tr + ev), e.op, k);
      }
    } else if e.Return? {
      var op := PcOf(s, t).op;
      var k :| Ranked(order, op, k) && (PcOf(s, t).GotSeq? ==> k < |s.c| && PcOf(s, t).at == k)
                 && (PcOf(s, t).Unlocked? ==> PcOf(s, t).ok == (k < |s.c|));
      assert Ranked(LockOrder(tr + ev), op, k) && e.result == Owed(s.c, k);
    }
  }

  lemma {:induction false} ReturnedOld(tr: seq<Event>, ev: seq<Event>, op: nat)
    requires |ev| <= 1
    ensures Returned(tr + ev, op) <==> Returned(tr, op) || (ev != [] && ev[0].Return? && ev[0].op == op)
  {
    if Returned(tr, op) {
      var p :| 0 <= p < |tr| && tr[p].Return? && tr[p].op == op;
      assert (tr + ev)[p] == tr[p];
    }
    if ev != [] {
      assert (tr + ev)[|tr|] == ev[0];
    }
    if Returned(tr + ev, op) {
      var p :| 0 <= p < |tr + ev| && (tr + ev)[p].Return? && (tr + ev)[p].op == op;
      assert p < |tr| ==> tr[p] == (tr + ev)[p];
    }
  }

  /** A busy call stays busy until it returns. */
  lemma {:induction false} BusyUntilReturn(s: State, tr: seq<Event>, t: Tid, op: nat)
    requires Step(s, t).Some? && (Busy(s, op) || Returned(tr, op))
    ensures Busy(Step(s, t).value.0, op) || Returned(tr + Step(s, t).value.1, op)
  {
    var (s', ev) := Step(s, t).value;
    ReturnedOld(tr, ev, op);
    if Busy(s, op) {
      var u: Tid :| !PcOf(s, u).Idle? && PcOf(s, u).op == op;
      if u != t || !PcOf(s', t).Idle? {
        assert !PcOf(s', u).Idle? && PcOf(s', u).op == op;
      }
    }
  }

  lemma {:induction false} StepKeepsOrderKnown(s: State, tr: seq<Event>, t: Tid)
    requires OrderKnown(s, tr) && PendingOk(s, tr, t) && Step(s, t).Some?
    ensures OrderKnown(Step(s, t).value.0, tr + Step(s, t).value.1)
  {
    var (s', ev) := Step(s, t).value;
    LockOrderAppend(tr, ev);
    var order, order' := LockOrder(tr), LockOrder(tr + ev);
    forall i | 0 <= i < |order'| ensures order'[i] < s'.nextOp && (Busy(s', order'[i]) || Returned(tr + ev, order'[i])) {
      if i < |order| {
        BusyUntilReturn(s, tr, t, order[i]);
      } else {
        assert PcOf(s', t).op == order'[i];
      }
    }
  }

  lemma {:induction false} StepKeepsDistinct(s: State, tr: seq<Event>, t: Tid)
    requires Distinct(LockOrder(tr)) && ThreadInv(s, LockOrder(tr), t) && Step(s, t).Some?
    ensures Distinct(LockOrder(tr + Step(s, t).value.1))
  {
    LockOrderAppend(tr, Step(s, t).value.1);
  }

  lemma {:induction false} StepKeepsReturnsDistinct(s: State, tr: seq<Event>, t: Tid)
    requires PendingOk(s, tr, t) && DistinctReturns(tr) && ReturnsKnown(s, tr) && Step(s, t).Some?
    ensures DistinctReturns(tr + Step(s, t).value.1) && ReturnsKnown(Step(s, t).value.0, tr + Step(s, t).value.1)
  {
    var tr' := tr + Step(s, t).value.1;
    forall p, q | 0 <= p < q < |tr'| && tr'[p].Return? && tr'[q].Return? ensures tr'[p].op != tr'[q].op {
      assert tr'[p] == tr[p];
      if q == |tr| {
        assert !Returned(tr, PcOf(s, t).op);
      }
    }
  }

  lemma {:induction false} NotReturnedYet(s: State, tr: seq<Event>)
    requires ReturnsKnown(s, tr)
    ensures !Returned(tr, s.nextOp)
  {
  }

  lemma {:induction false} StepKeepsPending(s: State, tr: seq<Event>, t: Tid, u: Tid)
    requires PendingOk(s, tr, t) && PendingOk(s, tr, u) && DistinctPending(s) && ReturnsKnown(s, tr) && Step(s, t).Some?
    ensures PendingOk(Step(s, t).value.0, tr + Step(s, t).value.1, u)
  {
    var (s', ev) := Step(s, t).value;
    NotReturnedYet(s, tr);
    if !PcOf(s', u).Idle? {
      ReturnedOld(tr, ev, PcOf(s', u).op);
    }
  }

  lemma {:induction false} StepKeepsDistinctPending(s: State, tr: seq<Event>, t: Tid)
    requires DistinctPending(s) && (forall u: Tid :: PendingOk(s, tr, u)) && Step(s, t).Some?
    ensures DistinctPending(Step(s, t).value.0)
  {
    var s' := Step(s, t).value.0;
    forall u: Tid, w: Tid | u != w && !PcOf(s', u).Idle? && !PcOf(s', w).Idle? ensures PcOf(s', u).op != PcOf(s', w).op {
      assert PendingOk(s, tr, u) && PendingOk(s, tr, w);
    }
  }

  lemma {:induction false} StepKeepsOps(s: State, tr: seq<Event>, t: Tid)
    requires OpsOk(s, tr) && ThreadInv(s, LockOrder(tr), t) && Step(s, t).Some?
    ensures OpsOk(Step(s, t).value.0, tr + Step(s, t).value.1)
  {
    assert PendingOk(s, tr, t);
    StepKeepsDistinct(s, tr, t);
    StepKeepsOrderKnown(s, tr, t);
    StepKeepsReturnsDistinct(s, tr, t);
    StepKeepsDistinctPending(s, tr, t);
    forall u: Tid ensures PendingOk(Step(s, t).value.0, tr + Step(s, t).value.1, u) {
      assert PendingOk(s, tr, u);
      StepKeepsPending(s, tr, t, u);
    }
  }

  lemma {:induction false} StepKeepsCursor(s: State, order: seq<nat>, t: Tid)
    requires s.size == |s.c| && CursorOk(s, order) && ThreadInv(s, order, t) && Step(s, t).Some?
    ensures var (s', ev) := Step(s, t).value;
            s'.size == |s'.c| && CursorOk(s', order + if ev != [] && ev[0].Acquire? then [ev[0].op] else [])
  {
    assert order + [] == order;
    assert s.mu.Some? && s.mu != Some(t) ==> PcOf(Step(s, t).value.0, s.mu.value) == PcOf(s, s.mu.value);
  }

  lemma {:induction false} StepKeepsInv(s: State, tr: seq<Event>, t: Tid)
    requires Inv(s, tr) && Step(s, t).Some?
    ensures Inv(Step(s, t).value.0, tr + Step(s, t).value.1)
  {
    var (s', ev) := Step(s, t).value;
    LockOrderAppend(tr, ev);
    assert ThreadInv(s, LockOrder(tr), t);
    StepKeepsCursor(s, LockOrder(tr), t);
    forall u: Tid ensures ThreadInv(s', LockOrder(tr + ev), u) {
      StepKeepsThreadInv(s, tr, t, u);
    }
    forall e | e in tr + ev ensures ReturnOk(s'.c, LockOrder(tr + ev), e) {
      StepKeepsReturns(s, tr, t, e);
    }
    StepKeepsOps(s, tr, t);
  }

  lemma {:induction false} InitInv(list: seq<Tombstone>)
    ensures Inv(Init(list), [])
  {
    assert LockOrder([]) == [];
    assert forall t: Tid :: PcOf(Init(list), t).Idle?;
  }

  lemma {:induction false} RunLast(list: seq<Tombstone>, sched: seq<Tid>) returns (s: State, tr: seq<Event>)
    requires sched != [] && Run(list, sched).Some?
    ensures Run(list, sched[..|sched| - 1]) == Some((s, tr)) && Step(s, sched[|sched| - 1]).Some?
    ensures Run(list, sched) == Some((Step(s, sched[|sched| - 1]).value.0, tr + Step(s, sched[|sched| - 1]).value.1))
    ensures Step(s, sched[|sched| - 1]).value.0.c == s.c
  {
    s, tr := Run(list, sched[..|sched| - 1]).value.0, Run(list, sched[..|sched| - 1]).value.1;
  }

  lemma {:induction false} RunInv(list: seq<Tombstone>, sched: seq<Tid>)
    requires Run(list, sched).Some?
    ensures Inv(Run(list, sched).value.0, Run(list, sched).value.1) && Run(list, sched).value.0.c == list
  {
    if sched == [] {
      InitInv(list);
    } else {
      var s, tr := RunLast(list, sched);
      RunInv(list, sched[..|sched| - 1]);
      StepKeepsInv(s, tr, sched[|sched| - 1]);
    }
  }

  // ----- what callers may rely on -----

  /**
   * The lock order decides every answer: the k-th call to get the lock returns the k-th tombstone, whole, and the calls
   * behind the last tombstone return none.
   */
  lemma {:induction false} AnswerByLockOrder(list: seq<Tombstone>, sched: seq<Tid>, p: nat) returns (k: nat)
    requires Run(list, sched).Some? && p < |Run(list, sched).value.1| && Run(list, sched).value.1[p].Return?
    ensures var tr := Run(list, sched).value.1;
            && Ranked(LockOrder(tr), tr[p].op, k)
            && (k < |list| ==> tr[p].result == Some(list[k]))
            && (k >= |list| ==> tr[p].result == None)
  {
    RunInv(list, sched);
    var tr := Run(list, sched).value.1;
    assert ReturnOk(list, LockOrder(tr), tr[p]);
    k :| Ranked(LockOrder(tr), tr[p].op, k) && tr[p].result == Owed(list, k);
  }

  /** No two calls are handed the same position, and each call gets the lock and returns at most once. */
  lemma {:induction false} NoneTwice(list: seq<Tombstone>, sched: seq<Tid>)
    requires Run(list, sched).Some?
    ensures var tr := Run(list, sched).value.1;
            var order := LockOrder(tr);
            && (forall i, j :: 0 <= i < j < |order| ==> order[i] != order[j])
            && (forall p, q :: 0 <= p < q < |tr| && tr[p].Return? && tr[q].Return? ==> tr[p].op != tr[q].op)
  {
    RunInv(list, sched);
  }

  /**
   * Exactly once: when every call has returned, each position that the calls reached was handed to exactly one of
   * them; and if one of them was told that there is no more, every position was.
   */
  lemma {:induction false} ExactlyOnce(list: seq<Tombstone>, sched: seq<Tid>, i: nat)
    requires Run(list, sched).Some? && forall t: Tid :: PcOf(Run(list, sched).value.0, t).Idle?
    requires i < |list|
    requires var tr := Run(list, sched).value.1;
             i < |LockOrder(tr)| || exists p :: 0 <= p < |tr| && tr[p].Return? && tr[p].result.None?
    ensures var tr := Run(list, sched).value.1;
            && i < |LockOrder(tr)|
            && exists p :: 0 <= p < |tr| && tr[p].Return? && tr[p].op == LockOrder(tr)[i] && tr[p].result == Some(list[i])
                    && forall q :: 0 <= q < |tr| && tr[q].Return? && tr[q].op == LockOrder(tr)[i] ==> q == p
  {
    RunInv(list, sched);
    NoneTwice(list, sched);
    var (s, tr) := Run(list, sched).value;
    var order := LockOrder(tr);
    if i >= |order| {
      var p :| 0 <= p < |tr| && tr[p].Return? && tr[p].result.None?;
      var k := AnswerByLockOrder(list, sched, p);
    }
    assert !Busy(s, order[i]);
    var p :| 0 <= p < |tr| && tr[p].Return? && tr[p].op == order[i];
    var k := AnswerByLockOrder(list, sched, p);
    assert k == i;
  }

  /** Every index used outside the lock is in bounds, so only the lock ever makes a call wait. */
  lemma {:induction false} IndexInBounds(list: seq<Tombstone>, sched: seq<Tid>, t: Tid, at: nat)
    requires Run(list, sched).Some?
    ensures var s := Run(list, sched).value.0;
            && (Indexes(PcOf(s, t), at) ==> at < |s.c|)
            && (Step(s, t).None? <==> PcOf(s, t).Called? && s.mu.Some?)
  {
    RunInv(list, sched);
    var (s, tr) := Run(list, sched).value;
    assert ThreadInv(s, LockOrder(tr), t);
  }
}
