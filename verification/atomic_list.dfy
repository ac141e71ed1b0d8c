/** The atomic append-only list that `COWList` implements: each call takes effect at one instant. */
module AtomicList {
  import opened Runtime
  import opened CowMachine

  datatype Entry = Entry(op: nat, item: Item)

  /** The state of a thread's call: not called, called but without effect so far, or in effect with its answer fixed. */
  datatype Pending = NoCall | Waiting(op: nat, req: Request) | Done(op: nat, req: Request, resp: Response)

  datatype AState = AState(entries: seq<Entry>, pend: map<Tid, Pending>, nextOp: nat)

  datatype AAction = AInvoke(req: Request) | ATakeEffect | AReturn

  function PendOf(a: AState, t: Tid): Pending {
    if t in a.pend then a.pend[t] else NoCall
  }

  /** The sequential meaning of a call. */
  function Apply(entries: seq<Entry>, op: nat, req: Request): (seq<Entry>, Response) {
    match req
    case Append(x) => (entries + [Entry(op, x)], At(|entries|))
    case Get(i) => (entries, if 0 <= i < |entries| then Found(entries[i].item) else OutOfRange)
  }

  function AStep(a: AState, t: Tid, act: AAction): Option<(AState, seq<Event>)> {
    match (act, PendOf(a, t))
    case (AInvoke(req), NoCall) =>
      Some((a.(pend := a.pend[t := Waiting(a.nextOp, req)], nextOp := a.nextOp + 1), [Call(t, a.nextOp, req)]))
    case (ATakeEffect, Waiting(op, req)) =>
      var (entries, resp) := Apply(a.entries, op, req);
      Some((a.(entries := entries, pend := a.pend[t := Done(op, req, resp)]), []))
    case (AReturn, Done(op, req, resp)) =>
      Some((a.(pend := a.pend[t := NoCall]), [Return(t, op, req, resp)]))
    case _ => None
  }

  const A_INIT := AState([], map[], 0)

  type ASchedule = seq<(Tid, AAction)>

  function ARun(sched: ASchedule): Option<(AState, seq<Event>)> {
    if sched == [] then Some((A_INIT, []))
    else
      var last := |sched| - 1;
      match ARun(sched[..last])
      case None => None
      case Some((a, tr)) =>
        match AStep(a, sched[last].0, sched[last].1)
        case None => None
        case Some((a', ev)) => Some((a', tr + ev))
  }

  // ----- what every history of the atomic list satisfies -----

  ghost predicate DistinctOps(entries: seq<Entry>) {
    forall i, j :: 0 <= i < j < |entries| ==> entries[i].op != entries[j].op
  }

  ghost predicate OpIn(entries: seq<Entry>, op: nat) {
    exists i :: 0 <= i < |entries| && entries[i].op == op
  }

  /** The answer of a call that has taken effect agrees with the list. */
  ghost predicate Answers(entries: seq<Entry>, op: nat, req: Request, resp: Response) {
    match req
    case Append(x) => resp.At? && resp.at < |entries| && entries[resp.at] == Entry(op, x)
    case Get(i) => resp == OutOfRange || (0 <= i < |entries| && resp == Found(entries[i].item))
  }

  ghost predicate Returned(tr: seq<Event>, op: nat) {
    exists p :: 0 <= p < |tr| && tr[p].Return? && tr[p].op == op
  }

  ghost predicate CalledWith(tr: seq<Event>, t: Tid, op: nat, req: Request) {
    Call(t, op, req) in tr
  }

  ghost predicate PendingOk(a: AState, tr: seq<Event>, t: Tid) {
    var p := PendOf(a, t);
    p.NoCall? ||
    (&& p.op < a.nextOp
     && !Returned(tr, p.op)
     && CalledWith(tr, t, p.op, p.req)
     && (p.Waiting? ==> !OpIn(a.entries, p.op))
     && (p.Done? ==> Answers(a.entries, p.op, p.req, p.resp)))
  }

  ghost predicate EventOk(a: AState, e: Event) {
    e.op < a.nextOp && (e.Return? ==> Answers(a.entries, e.op, e.req, e.resp))
  }

  /** An index is accounted for: its call is returning it, or has returned it. */
  ghost predicate Accounted(a: AState, tr: seq<Event>, i: nat)
    requires i < |a.entries|
  {
    var e := a.entries[i];
    || (exists t :: PendOf(a, t) == Done(e.op, Append(e.item), At(i)))
    || (exists t :: Return(t, e.op, Append(e.item), At(i)) in tr)
  }

  /** A lookup of `i` was called after an append had returned `i`. */
  ghost predicate LateGet(tr: seq<Event>, op: nat, i: int) {
    exists p, q :: 0 <= p < q < |tr| && tr[p].Return? && tr[p].resp.At? && tr[p].resp.at == i && tr[q].Call? && tr[q].op == op && tr[q].req == Get(i)
  }

  ghost predicate GetsFind(a: AState, tr: seq<Event>) {
    && (forall t, op, i, resp :: PendOf(a, t) == Done(op, Get(i), resp) && LateGet(tr, op, i) ==> resp != OutOfRange)
    && (forall t, op, i, resp :: Return(t, op, Get(i), resp) in tr && LateGet(tr, op, i) ==> resp != OutOfRange)
  }

  ghost predicate DistinctReturns(tr: seq<Event>) {
    forall p, q :: 0 <= p < q < |tr| && tr[p].Return? && tr[q].Return? ==> tr[p].op != tr[q].op
  }

  ghost predicate DistinctPending(a: AState) {
    forall t, u :: t != u && PendOf(a, t) != NoCall && PendOf(a, u) != NoCall ==> PendOf(a, t).op != PendOf(a, u).op
  }

  ghost predicate EntriesOk(a: AState, tr: seq<Event>) {
    forall i :: 0 <= i < |a.entries| ==>
      && a.entries[i].op < a.nextOp
      && Accounted(a, tr, i)
      && exists t :: CalledWith(tr, t, a.entries[i].op, Append(a.entries[i].item))
  }

  ghost predicate HistoryInv(a: AState, tr: seq<Event>) {
    && DistinctOps(a.entries)
    && DistinctReturns(tr)
    && DistinctPending(a)
    && EntriesOk(a, tr)
    && (forall t :: PendingOk(a, tr, t))
    && (forall e :: e in tr ==> EventOk(a, e))
    && GetsFind(a, tr)
  }

  lemma {:induction false} AnswersGrow(entries: seq<Entry>, more: seq<Entry>, op: nat, req: Request, resp: Response)
    requires Answers(entries, op, req, resp)
    ensures Answers(entries + more, op, req, resp)
  {
  }

  /** Only calls made later can become late lookups. */
  lemma {:induction false} LateGetOld(tr: seq<Event>, e: Event, op: nat, i: int)
    requires LateGet(tr + [e], op, i) && (e.Call? ==> e.op != op)
    ensures LateGet(tr, op, i)
  {
    var p, q :| 0 <= p < q < |tr + [e]| && (tr + [e])[p].Return? && (tr + [e])[p].resp.At? && (tr + [e])[p].resp.at == i
             && (tr + [e])[q].Call? && (tr + [e])[q].op == op && (tr + [e])[q].req == Get(i);
    assert q < |tr|;
    assert tr[p] == (tr + [e])[p] && tr[q] == (tr + [e])[q];
  }

  lemma {:induction false} ReturnedOld(tr: seq<Event>, e: Event, op: nat)
    requires Returned(tr + [e], op)
    ensures Returned(tr, op) || (e.Return? && e.op == op)
  {
    var p :| 0 <= p < |tr + [e]| && (tr + [e])[p].Return? && (tr + [e])[p].op == op;
    if p < |tr| {
      assert tr[p].Return? && tr[p].op == op;
    }
  }

  lemma {:induction false} ReturnedBound(a: AState, tr: seq<Event>, op: nat)
    requires (forall e :: e in tr ==> EventOk(a, e)) && Returned(tr, op)
    ensures op < a.nextOp
  {
    var p :| 0 <= p < |tr| && tr[p].Return? && tr[p].op == op;
    assert EventOk(a, tr[p]);
  }

  lemma {:induction false} InvokeKeeps(a: AState, tr: seq<Event>, t: Tid, req: Request)
    requires HistoryInv(a, tr) && PendOf(a, t).NoCall?
    ensures var (a', ev) := AStep(a, t, AInvoke(req)).value;
            HistoryInv(a', tr + ev)
  {
    var (a', ev) := AStep(a, t, AInvoke(req)).value;
    var tr' := tr + ev;
    forall u ensures PendingOk(a', tr', u) {
      assert PendingOk(a, tr, u);
      if u == t {
        if Returned(tr', a.nextOp) {
          ReturnedOld(tr, ev[0], a.nextOp);
          ReturnedBound(a, tr, a.nextOp);
        }
      } else if PendOf(a, u) != NoCall && Returned(tr', PendOf(a, u).op) {
        ReturnedOld(tr, ev[0], PendOf(a, u).op);
      }
    }
    assert DistinctPending(a') by {
      forall u, w | u != w && PendOf(a', u) != NoCall && PendOf(a', w) != NoCall
        ensures PendOf(a', u).op != PendOf(a', w).op
      {
        assert PendingOk(a, tr, u) && PendingOk(a, tr, w);
      }
    }
    forall i | 0 <= i < |a.entries| ensures Accounted(a', tr', i) {
      assert Accounted(a, tr, i);
      var e := a.entries[i];
      if u :| PendOf(a, u) == Done(e.op, Append(e.item), At(i)) {
        assert PendOf(a', u) == PendOf(a, u);
      }
    }
    forall i | 0 <= i < |a.entries| ensures exists u :: CalledWith(tr', u, a.entries[i].op, Append(a.entries[i].item)) {
      var u :| CalledWith(tr, u, a.entries[i].op, Append(a.entries[i].item));
      assert CalledWith(tr', u, a.entries[i].op, Append(a.entries[i].item));
    }
    forall u, op, i, resp | PendOf(a', u) == Done(op, Get(i), resp) && LateGet(tr', op, i) ensures resp != OutOfRange {
      assert PendingOk(a, tr, u) && u != t && PendOf(a, u) == PendOf(a', u);
      LateGetOld(tr, ev[0], op, i);
    }
    forall u, op, i, resp | Return(u, op, Get(i), resp) in tr' && LateGet(tr', op, i) ensures resp != OutOfRange {
      assert Return(u, op, Get(i), resp) in tr && EventOk(a, Return(u, op, Get(i), resp));
      LateGetOld(tr, ev[0], op, i);
    }
  }

  lemma {:induction false} EffectKeeps(a: AState, tr: seq<Event>, t: Tid)
    requires HistoryInv(a, tr) && PendOf(a, t).Waiting?
    ensures var (a', ev) := AStep(a, t, ATakeEffect).value;
            ev == [] && HistoryInv(a', tr)
  {
    var (a', ev) := AStep(a, t, ATakeEffect).value;
    var op, req := PendOf(a, t).op, PendOf(a, t).req;
    assert PendingOk(a, tr, t);
    var more := a'.entries[|a.entries|..];
    assert a'.entries == a.entries + more;
    assert more == if req.Append? then [Entry(op, req.item)] else [];
    forall u ensures PendingOk(a', tr, u) {
      assert PendingOk(a, tr, u);
      if u != t && PendOf(a, u).Done? {
        AnswersGrow(a.entries, more, PendOf(a, u).op, PendOf(a, u).req, PendOf(a, u).resp);
      }
    }
    forall e | e in tr ensures EventOk(a', e) {
      assert EventOk(a, e);
      if e.Return? {
        AnswersGrow(a.entries, more, e.op, e.req, e.resp);
      }
    }
    forall i | 0 <= i < |a'.entries|
      ensures a'.entries[i].op < a.nextOp && Accounted(a', tr, i)
      ensures exists u :: CalledWith(tr, u, a'.entries[i].op, Append(a'.entries[i].item))
    {
      if i < |a.entries| {
        assert Accounted(a, tr, i);
        var e := a.entries[i];
        if u :| PendOf(a, u) == Done(e.op, Append(e.item), At(i)) {
          assert PendOf(a', u) == PendOf(a, u);
        }
      } else {
        assert PendOf(a', t) == Done(op, req, At(i));
      }
    }
    assert DistinctPending(a') by {
      forall u, w | u != w && PendOf(a', u) != NoCall && PendOf(a', w) != NoCall
        ensures PendOf(a', u).op != PendOf(a', w).op
      {
        assert PendOf(a, u) != NoCall && PendOf(a, w) != NoCall;
      }
    }
    assert DistinctOps(a'.entries) by {
      assert req.Append? ==> !OpIn(a.entries, op);
    }
    forall u, g, i, resp | PendOf(a', u) == Done(g, Get(i), resp) && LateGet(tr, g, i) ensures resp != OutOfRange {
      if u == t {
        var p :| 0 <= p < |tr| && tr[p].Return? && tr[p].resp.At? && tr[p].resp.at == i;
        assert EventOk(a, tr[p]);
      } else {
        assert PendOf(a, u) == PendOf(a', u);
      }
    }
  }

  lemma {:induction false} ReturnKeeps(a: AState, tr: seq<Event>, t: Tid)
    requires HistoryInv(a, tr) && PendOf(a, t).Done?
    ensures var (a', ev) := AStep(a, t, AReturn).value;
            HistoryInv(a', tr + ev)
  {
    var (a', ev) := AStep(a, t, AReturn).value;
    var tr' := tr + ev;
    var d := PendOf(a, t);
    assert PendingOk(a, tr, t);
    forall u ensures PendingOk(a', tr', u) {
      assert PendingOk(a, tr, u);
      if u != t && PendOf(a, u) != NoCall && Returned(tr', PendOf(a, u).op) {
        ReturnedOld(tr, ev[0], PendOf(a, u).op);
      }
    }
    forall e | e in tr' ensures EventOk(a', e) {
      assert e in tr ==> EventOk(a, e);
    }
    assert DistinctPending(a') by {
      forall u, w | u != w && PendOf(a', u) != NoCall && PendOf(a', w) != NoCall
        ensures PendOf(a', u).op != PendOf(a', w).op
      {
        assert PendOf(a, u) != NoCall && PendOf(a, w) != NoCall;
      }
    }
    assert DistinctReturns(tr') by {
      forall p, q | 0 <= p < q < |tr'| && tr'[p].Return? && tr'[q].Return? ensures tr'[p].op != tr'[q].op {
        assert p < |tr| && tr[p] == tr'[p];
        if q == |tr| {
          assert !Returned(tr, d.op);
        }
      }
    }
    forall i | 0 <= i < |a.entries| ensures Accounted(a', tr', i) {
      assert Accounted(a, tr, i);
      var e := a.entries[i];
      if u :| PendOf(a, u) == Done(e.op, Append(e.item), At(i)) {
        if u == t {
          assert Return(t, e.op, Append(e.item), At(i)) == ev[0];
          assert ev[0] in tr';
        } else {
          assert PendOf(a', u) == PendOf(a, u);
        }
      }
    }
    forall i | 0 <= i < |a.entries| ensures exists u :: CalledWith(tr', u, a.entries[i].op, Append(a.entries[i].item)) {
      var u :| CalledWith(tr, u, a.entries[i].op, Append(a.entries[i].item));
      assert CalledWith(tr', u, a.entries[i].op, Append(a.entries[i].item));
    }
    forall u, op, i, resp | PendOf(a', u) == Done(op, Get(i), resp) && LateGet(tr', op, i) ensures resp != OutOfRange {
      assert PendOf(a, u) == PendOf(a', u);
      LateGetOld(tr, ev[0], op, i);
    }
    forall u, op, i, resp | Return(u, op, Get(i), resp) in tr' && LateGet(tr', op, i) ensures resp != OutOfRange {
      LateGetOld(tr, ev[0], op, i);
    }
  }

  /** Every history of the atomic list satisfies the invariant. */
  lemma {:induction false} HistoriesOk(sched: ASchedule)
    requires ARun(sched).Some?
    ensures HistoryInv(ARun(sched).value.0, ARun(sched).value.1)
  {
    if sched == [] {
    } else {
      var last := |sched| - 1;
      HistoriesOk(sched[..last]);
      var (a, tr) := ARun(sched[..last]).value;
      var (t, act) := sched[last];
      match act
      case AInvoke(req) => InvokeKeeps(a, tr, t, req);
      case ATakeEffect =>
        EffectKeeps(a, tr, t);
        assert tr + [] == tr;
      case AReturn => ReturnKeeps(a, tr, t);
    }
  }
}
