/**
 * The four callback registries. Each is a `COWList` of its own, filled only by its `register` function and read by
 * the exported callbacks, which assert the dynamic type of what they find.
 */
module Registries {
  import opened Runtime
  import opened CowMachine
  import opened AtomicList
  import opened CowTheorems

  /** Which registry moves, which thread, and how. */
  type SysSchedule = seq<(GoType, Tid, Action)>

  type SysState = map<GoType, (State, seq<Event>)>

  const ALL_KINDS: set<GoType> :=
    {MergeOperatorWrapper, ComparatorWrapper, CompactionFilterWrapper, SliceTransformWrapper}

  lemma {:induction false} KindListed(k: GoType)
    ensures k in ALL_KINDS
  {
    match k
    case MergeOperatorWrapper =>
    case ComparatorWrapper =>
    case CompactionFilterWrapper =>
    case SliceTransformWrapper =>
  }

  /** The `register` functions wrap what they append in the wrapper type of their registry. */
  ghost predicate Registers(k: GoType, a: Action) {
    a.Invoke? && a.req.Append? ==> a.req.item.typ == k
  }

  function SysRun(sched: SysSchedule): (r: Option<SysState>)
    ensures r.Some? ==> forall k :: k in r.value
  {
    if sched == [] then forall k ensures k in ALL_KINDS { KindListed(k); } Some(map k | k in ALL_KINDS :: (INIT, []))
    else
      var last := |sched| - 1;
      var (k, t, a) := sched[last];
      match SysRun(sched[..last])
      case None => None
      case Some(sys) =>
        KindListed(k);
        match Step(sys[k].0, t, a)
        case None => None
        case Some((s, ev)) => Some(sys[k := (s, sys[k].1 + ev)])
  }

  /** The moves of one registry. */
  function Project(sched: SysSchedule, k: GoType): Schedule {
    if sched == [] then []
    else
      var last := |sched| - 1;
      if sched[last].0 == k then Project(sched[..last], k) + [(sched[last].1, sched[last].2)]
      else Project(sched[..last], k)
  }

  /** The registries do not interfere. */
  lemma {:induction false} ProjectRun(sched: SysSchedule, k: GoType)
    requires SysRun(sched).Some?
    ensures Run(Project(sched, k)) == Some(SysRun(sched).value[k])
  {
    KindListed(k);
    if sched == [] {
    } else {
      var last := |sched| - 1;
      ProjectRun(sched[..last], k);
      var p := Project(sched[..last], k);
      if sched[last].0 == k {
        assert Project(sched, k)[..|p|] == p;
      }
    }
  }

  lemma {:induction false} ProjectRegisters(sched: SysSchedule, k: GoType)
    requires forall i :: 0 <= i < |sched| ==> Registers(sched[i].0, sched[i].2)
    ensures forall i :: 0 <= i < |Project(sched, k)| ==> Registers(k, Project(sched, k)[i].1)
  {
    if sched == [] {
    } else {
      ProjectRegisters(sched[..|sched| - 1], k);
    }
  }

  /** Only what was invoked is called. */
  lemma {:induction false} CallsRegister(sched: Schedule, k: GoType)
    requires Run(sched).Some? && forall i :: 0 <= i < |sched| ==> Registers(k, sched[i].1)
    ensures forall e :: e in Run(sched).value.1 && e.Call? && e.req.Append? ==> e.req.item.typ == k
  {
    if sched == [] {
    } else {
      var last := |sched| - 1;
      CallsRegister(sched[..last], k);
      assert Registers(k, sched[last].1);
    }
  }

  /** A callback's type assertion never fails: all that a registry hands out is of its own wrapper type. */
  lemma {:induction false} TypeAssertionHolds(sched: SysSchedule, k: GoType, r: nat)
    requires SysRun(sched).Some? && forall i :: 0 <= i < |sched| ==> Registers(sched[i].0, sched[i].2)
    requires r < |SysRun(sched).value[k].1|
    requires SysRun(sched).value[k].1[r].Return? && SysRun(sched).value[k].1[r].resp.Found?
    ensures SysRun(sched).value[k].1[r].resp.item.typ == k
  {
    var tr := SysRun(sched).value[k].1;
    ProjectRun(sched, k);
    ProjectRegisters(sched, k);
    CallsRegister(Project(sched, k), k);
    FoundWasAppended(Project(sched, k), r);
    var t, op :| Call(t, op, Append(tr[r].resp.item)) in tr;
  }

  /**
   * Dispatch: a callback that is called with the index a registration has returned finds the very object registered,
   * under its own wrapper type, however many registrations and callbacks of all four kinds run meanwhile.
   */
  lemma {:induction false} CallbackReachesObject(sched: SysSchedule, k: GoType, p: nat, q: nat, r: nat)
    requires SysRun(sched).Some? && forall i :: 0 <= i < |sched| ==> Registers(sched[i].0, sched[i].2)
    requires var tr := SysRun(sched).value[k].1;
             && p < q < r < |tr|
             && Appended(tr[p])
             && tr[q].Call? && tr[q].req == Get(tr[p].resp.at)
             && tr[r].Return? && tr[r].op == tr[q].op && tr[r].req == tr[q].req
    ensures var tr := SysRun(sched).value[k].1;
            && tr[p].req.Append?
            && tr[r].resp == Found(Item(k, tr[p].req.item.target))
  {
    ProjectRun(sched, k);
    LookupFindsItem(Project(sched, k), p, q, r);
    TypeAssertionHolds(sched, k, r);
  }
}
