/** The C allocator as a ledger: what is allocated, and what has been released how often. */
module CHeap {
  import opened Bits

  type bytes = seq<byte>

  /** Names an allocation; 0 is the null pointer. A name is not used again after its release. */
  type Ptr = nat

  const NULL: Ptr := 0

  datatype Ledger = Ledger(live: map<Ptr, bytes>, next: Ptr, released: multiset<Ptr>)

  /** Nothing is both live and released, or released twice. */
  ghost predicate Balanced(l: Ledger) {
    && NULL < l.next
    && NULL !in l.live && NULL !in l.released
    && (forall p :: p in l.live ==> p < l.next)
    && (forall p :: p in l.released ==> p < l.next && p !in l.live && l.released[p] == 1)
  }

  /** `free`: releasing the null pointer does nothing. */
  function Release(l: Ledger, p: Ptr): Ledger {
    if p == NULL then l else Ledger(l.live - {p}, l.next, l.released + multiset{p})
  }

  class Allocator {
    var live: map<Ptr, bytes>
    var next: Ptr
    ghost var released: multiset<Ptr>

    ghost function State(): Ledger
      reads this
    {
      Ledger(live, next, released)
    }

    ghost predicate Valid()
      reads this
    {
      Balanced(State())
    }

    constructor ()
      ensures Valid() && State() == Ledger(map[], 1, multiset{})
    {
      live, next, released := map[], 1, multiset{};
    }

    /** `C.CBytes`: a copy in the C heap, even of an empty slice. */
    method CBytes(b: bytes) returns (p: Ptr)
      requires Valid()
      modifies this
      ensures Valid() && p == old(next) && p !in old(live)
      ensures State() == Ledger(old(live)[p := b], old(next) + 1, old(released))
    {
      p := next;
      live := live[p := b];
      next := next + 1;
    }

    /** `C.free` and `rocksdb_free`: callers must pass null or a live allocation. */
    method Free(p: Ptr)
      requires Valid() && (p == NULL || p in live)
      modifies this
      ensures Valid() && State() == Release(old(State()), p)
    {
      if p != NULL {
        live := live - {p};
        released := released + multiset{p};
      }
    }
  }
}
