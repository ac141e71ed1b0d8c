/** `COWList` refines the atomic list, and what follows for its callers. */
module CowTheorems {
  import opened Runtime
  import opened CowMachine
  import opened AtomicList

  // ----- refinement -----

  /** A call takes effect at `Store` if it is an append, and at `Load` if it is a lookup. */
  ghost function CallOf(s: State, t: Tid): Pending {
    match PcOf(s, t)
    case Idle => NoCall
    case Called(op, req) => Waiting(op, req)
    case Locked(op, x) => Waiting(op, Append(x))
    case Loaded(op, x, _) => Waiting(op, Append(x))
    case Copying(op, x, _, _, _) => Waiting(op, Append(x))
    case Filled(op, x, _, _) => Waiting(op, Append(x))
    case Stored(op, x, i) => Done(op, Append(x), At(i))
    case Unlocked(op, x, i) => Done(op, Append(x), At(i))
    case Read(op, i, list) => Done(op, Get(i), Lookup(ListAt(s, list), i))
  }

  ghost predicate SameList(list: seq<Option<Item>>, entries: seq<Entry>) {
    |list| == |entries| && forall i :: 0 <= i < |list| ==> list[i] == Some(entries[i].item)
  }

  /** The published list is the atomic one, and every call is as far. */
  ghost predicate Sim(s: State, a: AState) {
    && SameList(ListAt(s, s.v), a.entries)
    && s.nextOp == a.nextOp
    && forall t: Tid :: CallOf(s, t) == PendOf(a, t)
  }

  /** Each statement is one step of the atomic list, or none. */
  lemma {:induction false} StepRefines(s: State, a: AState, t: Tid, act: Action) returns (a': AState, acts: seq<AAction>)
    requires Inv(s) && Sim(s, a) && Step(s, t, act).Some?
    ensures Sim(Step(s, t, act).value.0, a')
    ensures if acts == [] then a' == a && Step(s, t, act).value.1 == []
            else |acts| == 1 && AStep(a, t, acts[0]) == Some((a', Step(s, t, act).value.1))
  {
    var (s', ev) := Step(s, t, act).value;
    assert ThreadInv(s, t) && CallOf(s, t) == PendOf(a, t);
    acts := if act.Invoke? then [AInvoke(act.req)]
            else match PcOf(s, t)
              case Called(_, Get(_)) => [ATakeEffect]
              case Filled(_, _, _, _) => [ATakeEffect]
              case Unlocked(_, _, _) => [AReturn]
              case Read(_, _, _) => [AReturn]
              case _ => [];
    a' := if acts == [] then a else AStep(a, t, acts[0]).value.0;
    forall u: Tid ensures CallOf(s', u) == PendOf(a', u) {
      assert CallOf(s, u) == PendOf(a, u) && ThreadInv(s, u);
      assert PcOf(s, u).Read? ==> !Builds(PcOf(s, t), PcOf(s, u).list);
      assert u != t ==> PcOf(s', u) == PcOf(s, u) && PendOf(a', u) == PendOf(a, u);
    }
  }

  lemma {:induction false} RunInv(sched: Schedule)
    requires Run(sched).Some?
    ensures Inv(Run(sched).value.0)
  {
    if sched == [] {
    } else {
      var last := |sched| - 1;
      RunInv(sched[..last]);
      StepKeepsInv(Run(sched[..last]).value.0, sched[last].0, sched[last].1);
    }
  }

  /**
   * Linearizability: whatever the interleaving, the calls and returns that callers see are those of a run of the
   * atomic list, which ends with the published contents.
   */
  lemma {:induction false} Linearizable(sched: Schedule) returns (asched: ASchedule)
    requires Run(sched).Some?
    ensures ARun(asched).Some? && ARun(asched).value.1 == Run(sched).value.1
    ensures Sim(Run(sched).value.0, ARun(asched).value.0)
  {
    if sched == [] {
      asched := [];
    } else {
      var last := |sched| - 1;
      var before := Linearizable(sched[..last]);
      RunInv(sched[..last]);
      var (s, tr) := Run(sched[..last]).value;
      var (t, act) := sched[last];
      var a', acts := StepRefines(s, ARun(before).value.0, t, act);
      if acts == [] {
        asched := before;
        assert tr + [] == tr;
      } else {
        asched := before + [(t, acts[0])];
        assert asched[..|before|] == before;
      }
    }
  }

  // ----- what callers may rely on -----

  ghost predicate Appended(e: Event) {
    e.Return? && e.resp.At?
  }

  /** Entries that explain the events of a run: `HistoryInv` of the atomic run that it refines. */
  lemma {:induction false} Explained(sched: Schedule) returns (a: AState)
    requires Run(sched).Some?
    ensures HistoryInv(a, Run(sched).value.1) && Sim(Run(sched).value.0, a)
  {
    var asched := Linearizable(sched);
    HistoriesOk(asched);
    a := ARun(asched).value.0;
  }

  /** No index is returned twice, and every returned index is within the published list and holds the item appended. */
  lemma {:induction false} IndicesDistinct(sched: Schedule)
    requires Run(sched).Some?
    ensures var (s, tr) := Run(sched).value;
            && (forall p :: 0 <= p < |tr| && Appended(tr[p]) ==>
                  tr[p].req.Append? && tr[p].resp.at < |ListAt(s, s.v)| && ListAt(s, s.v)[tr[p].resp.at] == Some(tr[p].req.item))
            && (forall p, q :: 0 <= p < q < |tr| && Appended(tr[p]) && Appended(tr[q]) ==> tr[p].resp.at != tr[q].resp.at)
  {
    var (s, tr) := Run(sched).value;
    var a := Explained(sched);
    forall p | 0 <= p < |tr| && Appended(tr[p])
      ensures EventOk(a, tr[p])
    {
    }
  }

  /**
   * No append is lost: once every thread is idle, the indices returned are exactly those of the published list, and
   * each holds what the call that returned it appended.
   */
  lemma {:induction false} NoAppendLost(sched: Schedule, i: nat)
    requires Run(sched).Some? && forall t: Tid :: PcOf(Run(sched).value.0, t).Idle?
    ensures var (s, tr) := Run(sched).value;
            i < |ListAt(s, s.v)| <==> exists p :: 0 <= p < |tr| && Appended(tr[p]) && tr[p].resp.at == i
  {
    var (s, tr) := Run(sched).value;
    var a := Explained(sched);
    IndicesDistinct(sched);
    if i < |ListAt(s, s.v)| {
      assert Accounted(a, tr, i);
      var e := a.entries[i];
      forall t: Tid ensures PendOf(a, t) != Done(e.op, Append(e.item), At(i)) {
        assert CallOf(s, t) == PendOf(a, t);
      }
      var t :| Return(t, e.op, Append(e.item), At(i)) in tr;
      var p :| 0 <= p < |tr| && tr[p] == Return(t, e.op, Append(e.item), At(i));
      assert Appended(tr[p]);
    }
  }

  /** Index stability: a lookup called after an append returned its index answers the very item appended, for ever. */
  lemma {:induction false} LookupFindsItem(sched: Schedule, p: nat, q: nat, r: nat)
    requires Run(sched).Some?
    requires var tr := Run(sched).value.1;
             && p < q < r < |tr|
             && Appended(tr[p])
             && tr[q].Call? && tr[q].req == Get(tr[p].resp.at)
             && tr[r].Return? && tr[r].op == tr[q].op && tr[r].req == tr[q].req
    ensures var tr := Run(sched).value.1;
            tr[p].req.Append? && tr[r].resp == Found(tr[p].req.item)
  {
    var tr := Run(sched).value.1;
    var a := Explained(sched);
    assert EventOk(a, tr[p]) && EventOk(a, tr[r]);
    assert LateGet(tr, tr[q].op, tr[p].resp.at);
    assert Return(tr[r].tid, tr[r].op, Get(tr[p].resp.at), tr[r].resp) == tr[r];
  }

  /** Whatever a lookup answers was appended by some call. */
  lemma {:induction false} FoundWasAppended(sched: Schedule, r: nat)
    requires Run(sched).Some? && r < |Run(sched).value.1|
    requires Run(sched).value.1[r].Return? && Run(sched).value.1[r].resp.Found?
    ensures exists t, op :: Call(t, op, Append(Run(sched).value.1[r].resp.item)) in Run(sched).value.1
  {
    var tr := Run(sched).value.1;
    var a := Explained(sched);
    assert EventOk(a, tr[r]);
    var i := tr[r].req.index;
    var t :| CalledWith(tr, t, a.entries[i].op, Append(a.entries[i].item));
  }

  // ----- memory -----

  /** A list that nobody is filling. */
  ghost predicate Settled(s: State, r: Ref) {
    r in s.heap && forall t: Tid :: !Builds(PcOf(s, t), r)
  }

  lemma {:induction false} PublishedSettled(s: State)
    requires Inv(s)
    ensures Settled(s, s.v)
  {
    forall t: Tid ensures !Builds(PcOf(s, t), s.v) {
      assert ThreadInv(s, t);
    }
  }

  lemma {:induction false} StepKeepsSettled(s: State, t: Tid, a: Action, r: Ref)
    requires Inv(s) && Step(s, t, a).Some? && Settled(s, r)
    ensures var s' := Step(s, t, a).value.0;
            && Settled(s', r) && ListAt(s', r) == ListAt(s, r)
            && ListAt(s, s.v) <= ListAt(s', s'.v)
  {
    var s' := Step(s, t, a).value.0;
    assert ThreadInv(s, t) && !Builds(PcOf(s, t), r);
    PublishedSettled(s);
    forall u: Tid ensures !Builds(PcOf(s', u), r) {
      assert !Builds(PcOf(s, u), r);
      assert u != t ==> PcOf(s', u) == PcOf(s, u);
    }
  }

  lemma {:induction false} RunSplit(sched: Schedule, n: nat)
    requires n <= |sched| && Run(sched).Some?
    ensures Run(sched[..n]).Some?
    decreases |sched|
  {
    if n == |sched| {
      assert sched[..n] == sched;
    } else {
      var last := |sched| - 1;
      RunSplit(sched[..last], n);
      assert sched[..last][..n] == sched[..n];
    }
  }

  /**
   * A list once published is never written again, so a reader that has loaded it may index it without a lock; and the
   * published lists form a chain of prefixes.
   */
  lemma {:induction false} PublishedForever(sched: Schedule, n: nat)
    requires n <= |sched| && Run(sched).Some?
    ensures Run(sched[..n]).Some?
    ensures var (was, now) := (Run(sched[..n]).value.0, Run(sched).value.0);
            && Settled(now, was.v)
            && ListAt(now, was.v) == ListAt(was, was.v)
            && ListAt(was, was.v) <= ListAt(now, now.v)
    decreases |sched|
  {
    RunSplit(sched, n);
    if n == |sched| {
      assert sched[..n] == sched;
      RunInv(sched);
      PublishedSettled(Run(sched).value.0);
    } else {
      var last := |sched| - 1;
      assert sched[..last][..n] == sched[..n];
      PublishedForever(sched[..last], n);
      RunInv(sched[..last]);
      StepKeepsSettled(Run(sched[..last]).value.0, sched[last].0, sched[last].1, Run(sched[..n]).value.0.v);
    }
  }

  /** A thread inside a method can always take its next statement, except that an append waits while another holds the lock. */
  lemma {:induction false} OnlyLockWaits(sched: Schedule, t: Tid, ref: Ref)
    requires Run(sched).Some? && !PcOf(Run(sched).value.0, t).Idle? && ref !in Run(sched).value.0.heap
    ensures var s := Run(sched).value.0;
            Step(s, t, Advance(ref)).None? <==> PcOf(s, t).Called? && PcOf(s, t).req.Append? && s.mu.Some?
  {
    RunInv(sched);
    assert ThreadInv(Run(sched).value.0, t);
  }

  /** No deadlock: as long as some call is unfinished, some thread can take its next statement. */
  lemma {:induction false} NoDeadlock(sched: Schedule, t: Tid, ref: Ref) returns (u: Tid)
    requires Run(sched).Some? && !PcOf(Run(sched).value.0, t).Idle? && ref !in Run(sched).value.0.heap
    ensures Step(Run(sched).value.0, u, Advance(ref)).Some?
  {
    var s := Run(sched).value.0;
    RunInv(sched);
    OnlyLockWaits(sched, t, ref);
    if Step(s, t, Advance(ref)).Some? {
      u := t;
    } else {
      u := s.mu.value;
      OnlyLockWaits(sched, u, ref);
    }
  }
}
