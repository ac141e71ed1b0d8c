/** `Slice` and `Slices` (slice.go), and who releases which buffer over any run of calls. */
module Slices {
  import opened Bits
  import opened CHeap
  import Runtime

  datatype SliceState = SliceState(data: Ptr, size: nat, freed: bool)

  function Buffer(l: Ledger, p: Ptr): bytes {
    if p in l.live then l.live[p] else []
  }

  /** What `Data` reads. */
  function DataOf(s: SliceState, l: Ledger): Runtime.ByteSlice {
    if s.data == NULL then Runtime.Nil
    else
      var b := Buffer(l, s.data);
      Runtime.Bytes(if s.size <= |b| then b[..s.size] else b)
  }

  function Freed(s: SliceState, l: Ledger): (SliceState, Ledger) {
    if s.freed then (s, l) else (SliceState(NULL, s.size, true), Release(l, s.data))
  }

  class Slice {
    var data: Ptr
    var size: nat
    var freed: bool

    ghost function State(): SliceState
      reads this
    {
      SliceState(data, size, freed)
    }

    /** `NewSlice` owns its buffer. */
    constructor NewSlice(data: Ptr, size: nat)
      ensures State() == SliceState(data, size, false)
    {
      this.data, this.size, freed := data, size, false;
    }

    /** The slices that iterators hand out borrow their buffer. */
    constructor Borrowed(data: Ptr, size: nat)
      ensures State() == SliceState(data, size, true)
    {
      this.data, this.size, freed := data, size, true;
    }

    method Data(heap: Allocator) returns (r: Runtime.ByteSlice)
      requires data == NULL || (data in heap.live && size <= |heap.live[data]|)
      ensures r == DataOf(State(), heap.State())
      ensures data == NULL ==> r == Runtime.Nil
      ensures data != NULL ==> r == Runtime.Bytes(heap.live[data][..size])
    {
      if data != NULL {
        return Runtime.Bytes(heap.live[data][..size]);
      }
      return Runtime.Nil;
    }

    method Free(heap: Allocator)
      requires heap.Valid() && (!freed ==> data == NULL || data in heap.live)
      modifies this, heap
      ensures heap.Valid() && (State(), heap.State()) == Freed(old(State()), old(heap.State()))
    {
      if !freed {
        heap.Free(data);
        data := NULL;
        freed := true;
      }
    }
  }

  // ----- ownership -----

  /** Owning slices hold distinct live buffers, and no borrowing slice holds one of them. */
  ghost predicate Owned(ss: seq<SliceState>, l: Ledger) {
    && Balanced(l)
    && (forall i :: 0 <= i < |ss| && ss[i].data != NULL ==> ss[i].data in l.live)
    && (forall i, j :: 0 <= i < |ss| && 0 <= j < |ss| && i != j && !ss[i].freed && ss[i].data != NULL ==> ss[i].data != ss[j].data)
  }

  function States(slices: seq<Slice>): (ss: seq<SliceState>)
    reads slices
    ensures |ss| == |slices| && forall i :: 0 <= i < |slices| ==> ss[i] == SliceState(slices[i].data, slices[i].size, slices[i].freed)
  {
    seq(|slices|, i requires 0 <= i < |slices| reads slices => SliceState(slices[i].data, slices[i].size, slices[i].freed))
  }

  lemma {:induction false} FreedKeepsOwned(ss: seq<SliceState>, l: Ledger, i: nat)
    requires Owned(ss, l) && i < |ss|
    ensures var (s, l') := Freed(ss[i], l);
            Owned(ss[i := s], l')
  {
  }

  /** Every position, in order. */
  function Positions(n: nat): (each: seq<nat>)
    ensures |each| == n && forall i :: 0 <= i < n ==> each[i] == i
  {
    seq(n, i => i)
  }

  /** `p` is the buffer of an owning slice among the first `n`. */
  ghost predicate OwnedBefore(ss: seq<SliceState>, n: nat, p: Ptr) {
    exists i :: 0 <= i < n && i < |ss| && !ss[i].freed && ss[i].data == p && p != NULL
  }

  /**
   * The first `n` slices have been freed: an owning one holds nothing any more and its buffer is gone, released once
   * more than before; a borrowing one is as it was, and so are the other slices and every other allocation.
   */
  ghost predicate FreedFirst(was: seq<SliceState>, l: Ledger, now: seq<SliceState>, l': Ledger, n: nat) {
    && |now| == |was|
    && l'.next == l.next
    && (forall i :: 0 <= i < |was| ==>
          now[i] == if i < n && !was[i].freed then SliceState(NULL, was[i].size, true) else was[i])
    && (forall p: Ptr :: OwnedBefore(was, n, p) ==> p !in l'.live && l'.released[p] == l.released[p] + 1)
    && (forall p: Ptr :: !OwnedBefore(was, n, p) ==>
          && (p in l'.live <==> p in l.live)
          && (p in l.live ==> l'.live[p] == l.live[p])
          && l'.released[p] == l.released[p])
  }

  lemma {:induction false} OwnedNext(ss: seq<SliceState>, n: nat, p: Ptr)
    requires n < |ss|
    ensures OwnedBefore(ss, n + 1, p) <==> OwnedBefore(ss, n, p) || (!ss[n].freed && ss[n].data == p && p != NULL)
  {
  }

  lemma {:induction false} FreedNext(was: seq<SliceState>, l: Ledger, now: seq<SliceState>, l': Ledger, n: nat)
    requires Owned(was, l) && FreedFirst(was, l, now, l', n) && n < |was|
    ensures var (s, l'') := Freed(now[n], l');
            FreedFirst(was, l, now[n := s], l'', n + 1)
  {
    forall p: Ptr
      ensures OwnedBefore(was, n + 1, p) <==> OwnedBefore(was, n, p) || (!was[n].freed && was[n].data == p && p != NULL)
    {
      OwnedNext(was, n, p);
    }
  }

  /** `Slices.Destroy` */
  method Destroy(slices: seq<Slice>, heap: Allocator)
    requires Owned(States(slices), heap.State())
    requires forall i, j :: 0 <= i < j < |slices| ==> slices[i] != slices[j]
    modifies slices, heap
    ensures FreedFirst(old(States(slices)), old(heap.State()), States(slices), heap.State(), |slices|)
    ensures World(States(slices), heap.State())
         == FreeEach(World(old(States(slices)), old(heap.State())), Positions(|slices|))
    ensures Owned(States(slices), heap.State())
  {
    ghost var start, all := World(States(slices), heap.State()), Positions(|slices|);
    assert all[0..] == all;
    for i := 0 to |slices|
      invariant FreedFirst(start.slices, start.ledger, States(slices), heap.State(), i)
      invariant FreeEach(World(States(slices), heap.State()), all[i..]) == FreeEach(start, all)
      invariant Owned(States(slices), heap.State())
    {
      ghost var before := World(States(slices), heap.State());
      FreedKeepsOwned(before.slices, before.ledger, i);
      FreedNext(start.slices, start.ledger, before.slices, before.ledger, i);
      slices[i].Free(heap);
      assert States(slices) == before.slices[i := Freed(before.slices[i], before.ledger).0];
      FreeEachStep(before, all, i);
    }
  }

  lemma {:induction false} FreeEachStep(w: World, each: seq<nat>, i: nat)
    requires i < |each|
    ensures FreeEach(w, each[i..]) == FreeEach(FreeAt(w, each[i]), each[i + 1..])
  {
    assert each[i..][0] == each[i] && each[i..][1..] == each[i + 1..];
  }

  // ----- any run of calls -----

  /** A call on one of the slices, or `Destroy` on any of them in any order (possibly repeated). */
  datatype Op = FreeOp(i: nat) | DataOp(i: nat) | DestroyOp(each: seq<nat>)

  datatype World = World(slices: seq<SliceState>, ledger: Ledger)

  function FreeAt(w: World, i: nat): (w': World)
    ensures |w'.slices| == |w.slices|
  {
    if i < |w.slices| then
      var (s, l) := Freed(w.slices[i], w.ledger);
      World(w.slices[i := s], l)
    else w
  }

  function FreeEach(w: World, each: seq<nat>): (w': World)
    ensures |w'.slices| == |w.slices|
    decreases each
  {
    if each == [] then w else FreeEach(FreeAt(w, each[0]), each[1..])
  }

  function Apply(w: World, op: Op): (w': World)
    ensures |w'.slices| == |w.slices|
  {
    match op
    case FreeOp(i) => FreeAt(w, i)
    case DataOp(_) => w
    case DestroyOp(each) => FreeEach(w, each)
  }

  function RunOps(w: World, ops: seq<Op>): (w': World)
    ensures |w'.slices| == |w.slices|
    decreases ops
  {
    if ops == [] then w else RunOps(Apply(w, ops[0]), ops[1..])
  }

  /** How a world may differ from an earlier one: a slice is as it was, or was owning and has released its buffer, once. */
  ghost predicate Since(w: World, w': World) {
    && Owned(w'.slices, w'.ledger)
    && |w'.slices| == |w.slices|
    && w.ledger.released <= w'.ledger.released
    && (forall i :: 0 <= i < |w.slices| ==>
          || w'.slices[i] == w.slices[i]
          || (!w.slices[i].freed && w'.slices[i] == SliceState(NULL, w.slices[i].size, true)))
    && (forall i :: 0 <= i < |w.slices| && !w.slices[i].freed && w.slices[i].data != NULL ==>
          w'.ledger.released[w.slices[i].data] == if w'.slices[i] == w.slices[i] then 0 else 1)
    && (forall p :: p in w.ledger.live && (forall i :: 0 <= i < |w.slices| && !w.slices[i].freed ==> w.slices[i].data != p) ==>
          p in w'.ledger.live && w'.ledger.live[p] == w.ledger.live[p])
    && (forall p :: p in w'.ledger.live ==> p in w.ledger.live && w'.ledger.live[p] == w.ledger.live[p])
  }

  lemma {:induction false} FreeAtSince(w: World, i: nat)
    requires Owned(w.slices, w.ledger)
    ensures Since(w, FreeAt(w, i))
  {
    if i < |w.slices| {
      FreedKeepsOwned(w.slices, w.ledger, i);
    }
  }

  lemma {:induction false} SinceTrans(a: World, b: World, c: World)
    requires Owned(a.slices, a.ledger) && Since(a, b) && Since(b, c)
    ensures Since(a, c)
  {
    forall i | 0 <= i < |a.slices| && !a.slices[i].freed && a.slices[i].data != NULL
      ensures c.ledger.released[a.slices[i].data] == if c.slices[i] == a.slices[i] then 0 else 1
    {
      if b.slices[i] != a.slices[i] {
        assert c.ledger.released[a.slices[i].data] == 1;
      }
    }
  }

  lemma {:induction false} Unchanged(w: World)
    requires Owned(w.slices, w.ledger)
    ensures Since(w, w)
  {
  }

  lemma {:induction false} FreeEachSince(w: World, each: seq<nat>)
    requires Owned(w.slices, w.ledger)
    ensures Since(w, FreeEach(w, each))
    decreases each
  {
    if each == [] {
      Unchanged(w);
    } else {
      FreeAtSince(w, each[0]);
      FreeEachSince(FreeAt(w, each[0]), each[1..]);
      SinceTrans(w, FreeAt(w, each[0]), FreeEach(w, each));
    }
  }

  /**
   * Over any run of calls, each owned buffer is released at most once and only by its own slice, and no borrowed
   * buffer is ever released.
   */
  lemma {:induction false} RunSafe(w: World, ops: seq<Op>)
    requires Owned(w.slices, w.ledger)
    ensures Since(w, RunOps(w, ops))
    decreases ops
  {
    if ops == [] {
      Unchanged(w);
    } else {
      match ops[0] {
        case FreeOp(i) => FreeAtSince(w, i);
        case DataOp(_) => Unchanged(w);
        case DestroyOp(each) => FreeEachSince(w, each);
      }
      RunSafe(Apply(w, ops[0]), ops[1..]);
      SinceTrans(w, Apply(w, ops[0]), RunOps(w, ops));
    }
  }

  lemma {:induction false} DestroyedReadNil(w: World, each: seq<nat>, i: nat)
    requires Owned(w.slices, w.ledger) && i in each && i < |w.slices|
    ensures FreeEach(w, each).slices[i].freed
    decreases each
  {
    FreeEachSince(w, each);
    FreeAtSince(w, each[0]);
    if i == each[0] {
      FreeEachSince(FreeAt(w, i), each[1..]);
    } else {
      DestroyedReadNil(FreeAt(w, each[0]), each[1..], i);
    }
  }

  /**
   * After any run that ends with a `Destroy` of all slices, every owning slice reads as nil and its buffer has been
   * released exactly once, and every borrowing slice still reads what it read before the run.
   */
  lemma {:induction false} AfterDestroy(w: World, ops: seq<Op>, each: seq<nat>, i: nat)
    requires Owned(w.slices, w.ledger) && i < |w.slices| && i in each
    ensures var w' := Apply(RunOps(w, ops), DestroyOp(each));
            if w.slices[i].freed then
              DataOf(w'.slices[i], w'.ledger) == DataOf(w.slices[i], w.ledger)
            else
              && DataOf(w'.slices[i], w'.ledger) == Runtime.Nil
              && (w.slices[i].data != NULL ==> w'.ledger.released[w.slices[i].data] == 1 && w.slices[i].data !in w'.ledger.live)
  {
    RunSafe(w, ops);
    var m := RunOps(w, ops);
    FreeEachSince(m, each);
    SinceTrans(w, m, FreeEach(m, each));
    DestroyedReadNil(m, each, i);
  }
}
