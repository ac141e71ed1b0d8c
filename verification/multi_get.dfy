/** `DB.MultiGet` (db.go) with its C arrays (array.go) and error strings (util.go), as entries in the allocation ledger. */
module MultiGet {
  import opened Bits
  import opened CHeap
  import Runtime
  import opened Slices

  /** What the database holds for a key. */
  datatype KeyResult = Found(value: bytes) | NotFound | Error(message: bytes)

  type Database = bytes -> KeyResult

  /** `MultiGet` returns a slice for each key, or one error that counts the failing keys and quotes the first. */
  datatype Outcome = Got(slices: seq<Slice>) | Failed(count: nat, key: bytes, message: bytes)

  function Content(r: KeyResult): bytes {
    match r
    case Found(v) => v
    case NotFound => []
    case Error(m) => m
  }

  function Lookups(db: Database, keys: seq<bytes>): (rs: seq<KeyResult>)
    ensures |rs| == |keys| && forall i :: 0 <= i < |keys| ==> rs[i] == db(keys[i])
  {
    seq(|keys|, i requires 0 <= i < |keys| => db(keys[i]))
  }

  /** The positions of the keys that fail. */
  ghost function Failing(db: Database, keys: seq<bytes>): set<nat> {
    set i: nat | i < |keys| && db(keys[i]).Error?
  }

  function Errors(rs: seq<KeyResult>): nat {
    if rs == [] then 0 else Errors(rs[..|rs| - 1]) + if rs[|rs| - 1].Error? then 1 else 0
  }

  // ----- what a stretch of the call does to the ledger -----

  /** Allocations made before `limit` are as they were. */
  ghost predicate KeptBelow(was: map<Ptr, bytes>, now: map<Ptr, bytes>, limit: Ptr) {
    forall p :: p < limit ==> (p in was <==> p in now) && (p in was && p in now ==> now[p] == was[p])
  }

  /** `ptrs` names the buffer of each result: distinct, and none older than `base`; an absent key has none. */
  ghost predicate Buffers(rs: seq<KeyResult>, ptrs: seq<Ptr>, base: Ptr, n: nat) {
    && n <= |rs| == |ptrs|
    && (forall i :: 0 <= i < n ==> if rs[i].NotFound? then ptrs[i] == NULL else ptrs[i] >= base > NULL)
    && (forall i, j :: 0 <= i < j < n && ptrs[i] != NULL ==> ptrs[i] != ptrs[j])
  }

  ghost predicate BuffersBelow(ptrs: seq<Ptr>, n: nat, limit: Ptr) {
    n <= |ptrs| && forall i :: 0 <= i < n ==> ptrs[i] < limit
  }

  /** Result `i` is in its buffer, when the first `n` are read and the error strings of the first `m` are released. */
  ghost predicate Held(rs: seq<KeyResult>, n: nat, m: nat, i: nat)
    requires i < |rs|
  {
    i < n && !rs[i].NotFound? && (i < m ==> rs[i].Found?)
  }

  ghost predicate HeldAt(rs: seq<KeyResult>, ptrs: seq<Ptr>, n: nat, m: nat, p: Ptr)
    requires |ptrs| == |rs|
  {
    exists i :: 0 <= i < |rs| && Held(rs, n, m, i) && p == ptrs[i]
  }

  /** From `base` on, exactly the held results are live, with their contents. */
  ghost predicate LiveResults(rs: seq<KeyResult>, ptrs: seq<Ptr>, base: Ptr, live: map<Ptr, bytes>, n: nat, m: nat)
    requires |ptrs| == |rs|
  {
    && (forall i :: 0 <= i < |rs| && Held(rs, n, m, i) ==> ptrs[i] in live && live[ptrs[i]] == Content(rs[i]))
    && (forall p :: p in live && p >= base ==> HeldAt(rs, ptrs, n, m, p))
  }

  /** `p` is the error string of one of the first `n` keys. */
  ghost predicate IsErrorString(rs: seq<KeyResult>, ptrs: seq<Ptr>, p: Ptr, n: nat)
    requires |ptrs| == |rs|
  {
    exists i :: 0 <= i < n && i < |rs| && rs[i].Error? && p == ptrs[i]
  }

  /** The error strings of the first `n` keys have been released once more, and nothing else. */
  ghost predicate ErrorsReleased(rs: seq<KeyResult>, ptrs: seq<Ptr>, n: nat, was: multiset<Ptr>, now: multiset<Ptr>)
    requires |ptrs| == |rs|
  {
    forall p: Ptr :: now[p] == was[p] + if IsErrorString(rs, ptrs, p, n) then 1 else 0
  }

  /** The C arrays hold, for key `i`, a value buffer, or nothing, or an error string. */
  ghost predicate Holds(r: KeyResult, ptr: Ptr, val: Ptr, valSize: nat, err: Ptr) {
    match r
    case Found(v) => val == ptr && valSize == |v| && err == NULL
    case NotFound => val == NULL && valSize == 0 && err == NULL
    case Error(_) => val == NULL && valSize == 0 && err == ptr
  }

  ghost predicate HoldsUpTo(rs: seq<KeyResult>, ptrs: seq<Ptr>, n: nat, vals: seq<Ptr>, valSizes: seq<nat>, errs: seq<Ptr>) {
    && n <= |rs| == |ptrs| == |vals| == |valSizes| == |errs|
    && forall i :: 0 <= i < n ==> Holds(rs[i], ptrs[i], vals[i], valSizes[i], errs[i])
  }

  lemma {:induction false} HoldsNext(rs: seq<KeyResult>, ptrs: seq<Ptr>, n: nat, vals: seq<Ptr>, valSizes: seq<nat>, errs: seq<Ptr>,
                                     ptr: Ptr, val: Ptr, valSize: nat, err: Ptr)
    requires n < |rs| && HoldsUpTo(rs, ptrs, n, vals, valSizes, errs) && Holds(rs[n], ptr, val, valSize, err)
    ensures HoldsUpTo(rs, ptrs[n := ptr], n + 1, vals[n := val], valSizes[n := valSize], errs[n := err])
  {
  }

  lemma {:induction false} KeptTrans(a: map<Ptr, bytes>, b: map<Ptr, bytes>, c: map<Ptr, bytes>, n: Ptr, m: Ptr)
    requires KeptBelow(a, b, n) && KeptBelow(b, c, m) && n <= m
    ensures KeptBelow(a, c, n)
  {
  }

  // ----- the C side -----

  /** C memory holds a copy of each slice, with its size. */
  ghost predicate Copies(vals: seq<bytes>, chars: seq<Ptr>, sizes: seq<nat>, live: map<Ptr, bytes>) {
    && |chars| == |sizes| == |vals|
    && forall i :: 0 <= i < |vals| ==> chars[i] in live && live[chars[i]] == vals[i] && sizes[i] == |vals[i]|
  }

  /** `byteSlicesToCSlices`: a copy of each slice, and its size. */
  method ByteSlicesToCSlices(vals: seq<bytes>, heap: Allocator) returns (chars: array<Ptr>, sizes: array<nat>)
    requires heap.Valid()
    modifies heap
    ensures fresh(chars) && fresh(sizes) && chars.Length == sizes.Length == |vals|
    ensures heap.Valid() && heap.next == old(heap.next) + |vals| && heap.released == old(heap.released)
    ensures KeptBelow(old(heap.live), heap.live, old(heap.next))
    ensures forall i :: 0 <= i < |vals| ==> chars[..][i] == old(heap.next) + i
    ensures Copies(vals, chars[..], sizes[..], heap.live)
  {
    chars := new Ptr[|vals|];
    sizes := new nat[|vals|];
    for i := 0 to |vals|
      invariant heap.Valid() && heap.next == old(heap.next) + i && heap.released == old(heap.released)
      invariant KeptBelow(old(heap.live), heap.live, old(heap.next))
      invariant forall j :: 0 <= j < i ==>
                  && chars[j] == old(heap.next) + j && sizes[j] == |vals[j]|
                  && chars[j] in heap.live && heap.live[chars[j]] == vals[j]
    {
      var p := heap.CBytes(vals[i]);
      chars[i] := p;
      sizes[i] := |vals[i]|;
    }
  }

  function Members(ps: seq<Ptr>): set<Ptr> {
    set p | p in ps
  }

  lemma {:induction false} OneMoreMember(live: map<Ptr, bytes>, ps: seq<Ptr>, p: Ptr)
    ensures live - Members(ps + [p]) == live - Members(ps) - {p}
  {
    assert Members(ps + [p]) == Members(ps) + {p};
  }

  /** `charsSlice.Destroy` */
  method DestroyChars(chars: array<Ptr>, heap: Allocator)
    requires heap.Valid()
    requires forall i :: 0 <= i < chars.Length ==> chars[i] in heap.live
    requires forall i, j :: 0 <= i < j < chars.Length ==> chars[i] != chars[j]
    modifies heap
    ensures heap.Valid() && heap.next == old(heap.next)
    ensures heap.live == old(heap.live) - Members(chars[..])
    ensures heap.released == old(heap.released) + multiset(chars[..])
  {
    for i := 0 to chars.Length
      invariant heap.Valid() && heap.next == old(heap.next)
      invariant heap.live == old(heap.live) - Members(chars[..i])
      invariant heap.released == old(heap.released) + multiset(chars[..i])
    {
      heap.Free(chars[i]);
      assert chars[..i + 1] == chars[..i] + [chars[i]];
      OneMoreMember(old(heap.live), chars[..i], chars[i]);
    }
    assert chars[..chars.Length] == chars[..];
  }

  /** `fromCError`: copies an error string, and releases it. */
  method FromCError(cErr: Ptr, heap: Allocator) returns (err: Runtime.Option<bytes>)
    requires heap.Valid() && (cErr == NULL || cErr in heap.live)
    modifies heap
    ensures heap.Valid() && heap.State() == Release(old(heap.State()), cErr)
    ensures err == if cErr == NULL then Runtime.None else Runtime.Some(old(heap.live)[cErr])
  {
    err := Runtime.None;
    if cErr != NULL {
      err := Runtime.Some(heap.live[cErr]);
      heap.Free(cErr);
    }
  }

  /**
   * `rocksdb_multi_get`, as its callers rely on it: for each key it reads from C memory it returns a new value buffer,
   * or nulls if the key is absent, or a new error string.
   */
  method RocksMultiGet(db: Database, ghost keys: seq<bytes>, cKeys: seq<Ptr>, cKeySizes: seq<nat>,
                       vals: array<Ptr>, valSizes: array<nat>, errs: array<Ptr>, heap: Allocator)
    returns (ghost ptrs: seq<Ptr>)
    requires heap.Valid()
    requires vals.Length == valSizes.Length == errs.Length == |keys|
    requires vals != errs && vals != valSizes && errs != valSizes
    requires Copies(keys, cKeys, cKeySizes, heap.live)
    modifies vals, valSizes, errs, heap
    ensures ReadSoFar(Lookups(db, keys), ptrs, |keys|, old(heap.State()), heap.State(), vals[..], valSizes[..], errs[..])
  {
    ghost var start, rs := heap.State(), Lookups(db, keys);
    ptrs := seq(|keys|, _ => NULL);
    for i := 0 to |cKeys|
      invariant ReadSoFar(rs, ptrs, i, start, heap.State(), vals[..], valSizes[..], errs[..])
    {
      KeyRead(keys, cKeys, cKeySizes, start, heap.State(), i);
      ptrs := ReadKey(db, heap.live[cKeys[i]][..cKeySizes[i]], i, rs, ptrs, start, vals, valSizes, errs, heap);
    }
  }

  /** What `rocksdb_multi_get` does for one key. */
  method ReadKey(db: Database, key: bytes, i: nat, ghost rs: seq<KeyResult>, ghost ptrs: seq<Ptr>, ghost start: Ledger,
                 vals: array<Ptr>, valSizes: array<nat>, errs: array<Ptr>, heap: Allocator)
    returns (ghost more: seq<Ptr>)
    requires i < |rs| && rs[i] == db(key) && Balanced(start)
    requires vals != errs && vals != valSizes && errs != valSizes
    requires ReadSoFar(rs, ptrs, i, start, heap.State(), vals[..], valSizes[..], errs[..])
    modifies vals, valSizes, errs, heap
    ensures ReadSoFar(rs, more, i + 1, start, heap.State(), vals[..], valSizes[..], errs[..])
  {
    ghost var before, vs, ns, es := heap.State(), vals[..], valSizes[..], errs[..];
    var val, valSize, err := FetchOne(db, key, heap);
    StoreResult(vals, valSizes, errs, i, val, valSize, err);
    ReadNext(rs, ptrs, i, start, before, heap.State(), vs, ns, es, val, valSize, err);
    more := ptrs[i := if rs[i].NotFound? then NULL else before.next];
  }

  method StoreResult(vals: array<Ptr>, valSizes: array<nat>, errs: array<Ptr>, i: nat, val: Ptr, valSize: nat, err: Ptr)
    requires i < vals.Length == valSizes.Length == errs.Length
    requires vals != errs && vals != valSizes && errs != valSizes
    modifies vals, valSizes, errs
    ensures vals[..] == old(vals[..])[i := val]
    ensures valSizes[..] == old(valSizes[..])[i := valSize]
    ensures errs[..] == old(errs[..])[i := err]
  {
    vals[i], valSizes[i], errs[i] := val, valSize, err;
  }

  /** The first `n` keys have been read. */
  ghost predicate ReadSoFar(rs: seq<KeyResult>, ptrs: seq<Ptr>, n: nat, start: Ledger, now: Ledger,
                            vals: seq<Ptr>, valSizes: seq<nat>, errs: seq<Ptr>) {
    && Balanced(now) && start.next <= now.next && now.released == start.released
    && KeptBelow(start.live, now.live, start.next)
    && Buffers(rs, ptrs, start.next, n) && BuffersBelow(ptrs, n, now.next)
    && HoldsUpTo(rs, ptrs, n, vals, valSizes, errs)
    && LiveResults(rs, ptrs, start.next, now.live, n, 0)
  }

  /** The ledger once the result of a key has been allocated. */
  ghost function Added(l: Ledger, r: KeyResult): Ledger {
    if r.NotFound? then l else Ledger(l.live[l.next := Content(r)], l.next + 1, l.released)
  }

  lemma {:induction false} ReadNext(rs: seq<KeyResult>, ptrs: seq<Ptr>, i: nat, start: Ledger, before: Ledger, now: Ledger,
                                    vals: seq<Ptr>, valSizes: seq<nat>, errs: seq<Ptr>, val: Ptr, valSize: nat, err: Ptr)
    requires i < |rs| && Balanced(start) && ReadSoFar(rs, ptrs, i, start, before, vals, valSizes, errs)
    requires Balanced(now) && now == Added(before, rs[i]) && Holds(rs[i], before.next, val, valSize, err)
    ensures ReadSoFar(rs, ptrs[i := if rs[i].NotFound? then NULL else before.next], i + 1, start, now,
                      vals[i := val], valSizes[i := valSize], errs[i := err])
  {
    var ptr := if rs[i].NotFound? then NULL else before.next;
    HoldsNext(rs, ptrs, i, vals, valSizes, errs, ptr, val, valSize, err);
    ResultAdded(rs, ptrs, start.next, before, now.live, i);
  }

  lemma {:induction false} KeyRead(keys: seq<bytes>, cKeys: seq<Ptr>, cKeySizes: seq<nat>, start: Ledger, now: Ledger, i: nat)
    requires i < |keys| && Copies(keys, cKeys, cKeySizes, start.live) && Balanced(start) && KeptBelow(start.live, now.live, start.next)
    ensures cKeys[i] in now.live && cKeySizes[i] == |now.live[cKeys[i]]| && now.live[cKeys[i]][..cKeySizes[i]] == keys[i]
  {
  }

  /** The allocation of a result. */
  method FetchOne(db: Database, key: bytes, heap: Allocator) returns (val: Ptr, valSize: nat, err: Ptr)
    requires heap.Valid()
    modifies heap
    ensures heap.Valid() && heap.State() == Added(old(heap.State()), db(key))
    ensures Holds(db(key), old(heap.next), val, valSize, err)
  {
    val, valSize, err := NULL, 0, NULL;
    match db(key) {
      case Found(v) =>
        val := heap.CBytes(v);
        valSize := |v|;
      case NotFound =>
      case Error(m) =>
        err := heap.CBytes(m);
    }
  }

  lemma {:induction false} ResultAdded(rs: seq<KeyResult>, ptrs: seq<Ptr>, base: Ptr, l: Ledger, live: map<Ptr, bytes>, i: nat)
    requires Balanced(l) && i < |rs| && Buffers(rs, ptrs, base, i) && NULL < base <= l.next
    requires BuffersBelow(ptrs, i, l.next)
    requires LiveResults(rs, ptrs, base, l.live, i, 0)
    requires live == if rs[i].NotFound? then l.live else l.live[l.next := Content(rs[i])]
    ensures var ptrs' := ptrs[i := if rs[i].NotFound? then NULL else l.next];
            && Buffers(rs, ptrs', base, i + 1) && LiveResults(rs, ptrs', base, live, i + 1, 0)
            && BuffersBelow(ptrs', i + 1, if rs[i].NotFound? then l.next else l.next + 1)
  {
    var ptrs' := ptrs[i := if rs[i].NotFound? then NULL else l.next];
    forall j | 0 <= j < |rs| && Held(rs, i + 1, 0, j) ensures ptrs'[j] in live && live[ptrs'[j]] == Content(rs[j]) {
      assert j < i ==> Held(rs, i, 0, j);
    }
    forall p | p in live && p >= base ensures HeldAt(rs, ptrs', i + 1, 0, p) {
      if p in l.live {
        assert HeldAt(rs, ptrs, i, 0, p);
        var j :| 0 <= j < |rs| && Held(rs, i, 0, j) && p == ptrs[j];
        assert Held(rs, i + 1, 0, j) && p == ptrs'[j];
      } else {
        assert Held(rs, i + 1, 0, i) && p == ptrs'[i];
      }
    }
  }

  // ----- the errors -----

  ghost predicate FirstError(keys: seq<bytes>, rs: seq<KeyResult>, i: nat, key: bytes, message: bytes)
    requires i < |keys| == |rs|
  {
    rs[i] == Error(message) && key == keys[i] && forall j :: 0 <= j < i ==> !rs[j].Error?
  }

  /** The error list after the first `n` keys: how long it is, and that it starts with the first failing key. */
  ghost predicate Collected(keys: seq<bytes>, rs: seq<KeyResult>, n: nat, errs: seq<(bytes, bytes)>)
    requires n <= |keys| == |rs|
  {
    && |errs| == Errors(rs[..n])
    && (errs == [] ==> forall i :: 0 <= i < n ==> !rs[i].Error?)
    && (errs != [] ==> exists i :: 0 <= i < n && FirstError(keys, rs, i, errs[0].0, errs[0].1))
  }

  lemma {:induction false} CollectedNext(keys: seq<bytes>, rs: seq<KeyResult>, i: nat, errs: seq<(bytes, bytes)>)
    requires i < |keys| == |rs| && Collected(keys, rs, i, errs)
    ensures Collected(keys, rs, i + 1, if rs[i].Error? then errs + [(keys[i], rs[i].message)] else errs)
  {
    assert rs[..i + 1][..i] == rs[..i];
    if errs != [] {
      var more := errs + [(keys[i], Content(rs[i]))];
      assert more[0] == errs[0];
      var f :| 0 <= f < i && FirstError(keys, rs, f, errs[0].0, errs[0].1);
      assert 0 <= f < i + 1;
    } else if rs[i].Error? {
      var more := errs + [(keys[i], rs[i].message)];
      assert more[0] == (keys[i], rs[i].message);
      assert FirstError(keys, rs, i, more[0].0, more[0].1);
    }
  }

  /** The loop over the error strings: each is copied into an error and released. */
  method CollectErrors(keys: seq<bytes>, rocksErrs: array<Ptr>, ghost rs: seq<KeyResult>, ghost ptrs: seq<Ptr>,
                       ghost vals: seq<Ptr>, ghost valSizes: seq<nat>, ghost base: Ptr, heap: Allocator)
    returns (errs: seq<(bytes, bytes)>)
    requires heap.Valid() && rocksErrs.Length == |keys| == |rs|
    requires Buffers(rs, ptrs, base, |keys|) && HoldsUpTo(rs, ptrs, |keys|, vals, valSizes, rocksErrs[..])
    requires LiveResults(rs, ptrs, base, heap.live, |keys|, 0)
    modifies heap
    ensures heap.Valid() && KeptBelow(old(heap.live), heap.live, base)
    ensures LiveResults(rs, ptrs, base, heap.live, |keys|, |keys|)
    ensures ErrorsReleased(rs, ptrs, |keys|, old(heap.released), heap.released)
    ensures Collected(keys, rs, |keys|, errs)
  {
    errs := [];
    for i := 0 to rocksErrs.Length
      invariant heap.Valid() && KeptBelow(old(heap.live), heap.live, base)
      invariant LiveResults(rs, ptrs, base, heap.live, |keys|, i)
      invariant ErrorsReleased(rs, ptrs, i, old(heap.released), heap.released)
      invariant Collected(keys, rs, i, errs)
    {
      ghost var before := heap.State();
      assert Holds(rs[i], ptrs[i], vals[i], valSizes[i], rocksErrs[..][i]);
      assert Held(rs, |keys|, i, i) <==> !rs[i].NotFound?;
      var err := FromCError(rocksErrs[i], heap);
      ErrorReleased(rs, ptrs, base, old(heap.released), before, heap.State(), i);
      KeptTrans(old(heap.live), before.live, heap.live, base, base);
      CollectedNext(keys, rs, i, errs);
      if err.Some? {
        errs := errs + [(keys[i], err.value)];
      }
    }
  }

  lemma {:induction false} ErrorReleased(rs: seq<KeyResult>, ptrs: seq<Ptr>, base: Ptr, was: multiset<Ptr>, l: Ledger, l': Ledger, i: nat)
    requires i < |rs| && Buffers(rs, ptrs, base, |rs|)
    requires LiveResults(rs, ptrs, base, l.live, |rs|, i) && ErrorsReleased(rs, ptrs, i, was, l.released)
    requires l' == Release(l, if rs[i].Error? then ptrs[i] else NULL)
    ensures LiveResults(rs, ptrs, base, l'.live, |rs|, i + 1) && ErrorsReleased(rs, ptrs, i + 1, was, l'.released)
    ensures KeptBelow(l.live, l'.live, base)
  {
    forall j | 0 <= j < |rs| && Held(rs, |rs|, i + 1, j) ensures ptrs[j] in l'.live && l'.live[ptrs[j]] == Content(rs[j]) {
      assert Held(rs, |rs|, i, j);
    }
    forall p | p in l'.live && p >= base ensures HeldAt(rs, ptrs, |rs|, i + 1, p) {
      assert HeldAt(rs, ptrs, |rs|, i, p);
      var j :| 0 <= j < |rs| && Held(rs, |rs|, i, j) && p == ptrs[j];
      assert Held(rs, |rs|, i + 1, j);
    }
    forall p: Ptr ensures l'.released[p] == was[p] + if IsErrorString(rs, ptrs, p, i + 1) then 1 else 0 {
      ErrorStringNext(rs, ptrs, base, p, i);
    }
  }

  lemma {:induction false} ErrorStringNext(rs: seq<KeyResult>, ptrs: seq<Ptr>, base: Ptr, p: Ptr, i: nat)
    requires i < |rs| && Buffers(rs, ptrs, base, |rs|)
    ensures IsErrorString(rs, ptrs, p, i + 1) <==> IsErrorString(rs, ptrs, p, i) || (rs[i].Error? && p == ptrs[i])
    ensures rs[i].Error? && p == ptrs[i] ==> !IsErrorString(rs, ptrs, p, i)
  {
    if IsErrorString(rs, ptrs, p, i) {
      var j :| 0 <= j < i && j < |rs| && rs[j].Error? && p == ptrs[j];
      assert 0 <= j < i + 1;
    }
    if rs[i].Error? && p == ptrs[i] {
      assert 0 <= i < i + 1;
    }
  }

  // ----- MultiGet -----

  /**
   * The ledger after a call: every key copy and every error string has been released exactly once more than before,
   * earlier allocations are as they were, and of the call's own only the values are left.
   */
  ghost predicate Settled(rs: seq<KeyResult>, ptrs: seq<Ptr>, was: Ledger, now: Ledger) {
    var base := was.next + |rs|;
    && Balanced(now)
    && Buffers(rs, ptrs, base, |rs|)
    && KeptBelow(was.live, now.live, was.next)
    && (forall p: Ptr :: now.released[p] == was.released[p]
                           + (if was.next <= p < base then 1 else 0)
                           + (if IsErrorString(rs, ptrs, p, |rs|) then 1 else 0))
    && (forall p: Ptr :: was.next <= p < base ==> p !in now.live)
    && LiveResults(rs, ptrs, base, now.live, |rs|, |rs|)
  }

  /** The ledger while the keys are still copied: `chars` are their copies, and the error strings are gone. */
  ghost predicate Fetched(rs: seq<KeyResult>, ptrs: seq<Ptr>, was: Ledger, now: Ledger, chars: seq<Ptr>) {
    && Balanced(now)
    && Buffers(rs, ptrs, was.next + |rs|, |rs|)
    && |chars| == |rs| && (forall i :: 0 <= i < |rs| ==> chars[i] == was.next + i && chars[i] in now.live)
    && KeptBelow(was.live, now.live, was.next)
    && LiveResults(rs, ptrs, was.next + |rs|, now.live, |rs|, |rs|)
    && ErrorsReleased(rs, ptrs, |rs|, was.released, now.released)
  }

  /** The slice handed out for a key owns its value, or nothing. */
  ghost predicate OwnsValue(r: KeyResult, s: SliceState, l: Ledger) {
    && !s.freed
    && DataOf(s, l) == (if r.Found? then Runtime.Bytes(r.value) else Runtime.Nil)
    && (if r.Found? then s.data in l.live && l.live[s.data] == r.value && s.size == |r.value|
        else s.data == NULL && s.size == 0)
  }

  ghost predicate OwnValues(rs: seq<KeyResult>, ss: seq<SliceState>, l: Ledger) {
    && |ss| == |rs|
    && (forall i :: 0 <= i < |rs| ==> OwnsValue(rs[i], ss[i], l))
    && Owned(ss, l)
  }

  /** The part of `MultiGet` before its two exits. */
  method Fetch(db: Database, keys: seq<bytes>, heap: Allocator)
    returns (cKeys: array<Ptr>, vals: array<Ptr>, valSizes: array<nat>, errs: seq<(bytes, bytes)>,
             ghost ptrs: seq<Ptr>, ghost rocksErrs: seq<Ptr>)
    requires heap.Valid()
    modifies heap
    ensures fresh(cKeys) && Fetched(Lookups(db, keys), ptrs, old(heap.State()), heap.State(), cKeys[..])
    ensures HoldsUpTo(Lookups(db, keys), ptrs, |keys|, vals[..], valSizes[..], rocksErrs)
    ensures Collected(keys, Lookups(db, keys), |keys|, errs)
  {
    ghost var start, rs := heap.State(), Lookups(db, keys);
    // the key copies are destroyed before return
    var cKeySizes;
    cKeys, cKeySizes := ByteSlicesToCSlices(keys, heap);

    vals := new Ptr[|keys|];
    valSizes := new nat[|keys|];
    var cErrs := new Ptr[|keys|];

    ghost var copied := heap.State();
    ptrs := RocksMultiGet(db, keys, cKeys[..], cKeySizes[..], vals, valSizes, cErrs, heap);
    ghost var fetched := heap.State();
    rocksErrs := cErrs[..];
    errs := CollectErrors(keys, cErrs, rs, ptrs, vals[..], valSizes[..], copied.next, heap);
    KeysStillCopied(rs, ptrs, start, copied, fetched, heap.State(), cKeys[..]);
  }

  lemma {:induction false} KeysStillCopied(rs: seq<KeyResult>, ptrs: seq<Ptr>, start: Ledger, copied: Ledger, fetched: Ledger,
                                           now: Ledger, chars: seq<Ptr>)
    requires |chars| == |rs| && copied.next == start.next + |rs| && copied.released == start.released == fetched.released
    requires forall i :: 0 <= i < |rs| ==> chars[i] == start.next + i && chars[i] in copied.live
    requires KeptBelow(start.live, copied.live, start.next)
    requires KeptBelow(copied.live, fetched.live, copied.next) && KeptBelow(fetched.live, now.live, copied.next)
    requires Balanced(now) && Buffers(rs, ptrs, copied.next, |rs|) && LiveResults(rs, ptrs, copied.next, now.live, |rs|, |rs|)
    requires ErrorsReleased(rs, ptrs, |rs|, fetched.released, now.released)
    ensures Fetched(rs, ptrs, start, now, chars)
  {
    KeptTrans(copied.live, fetched.live, now.live, copied.next, copied.next);
    KeptTrans(start.live, copied.live, now.live, start.next, copied.next);
  }

  /** The loop that wraps each value. */
  method WrapValues(vals: array<Ptr>, valSizes: array<nat>) returns (slices: seq<Slice>)
    requires vals.Length == valSizes.Length
    ensures |slices| == vals.Length
    ensures forall i :: 0 <= i < |slices| ==> fresh(slices[i]) && slices[i].State() == SliceState(vals[i], valSizes[i], false)
    ensures forall i, j :: 0 <= i < j < |slices| ==> slices[i] != slices[j]
  {
    slices := [];
    for i := 0 to vals.Length
      invariant |slices| == i
      invariant forall j :: 0 <= j < i ==> fresh(slices[j]) && slices[j].State() == SliceState(vals[j], valSizes[j], false)
      invariant forall j, k :: 0 <= j < k < i ==> slices[j] != slices[k]
    {
      var s := new Slice.NewSlice(vals[i], valSizes[i]);
      slices := slices + [s];
    }
  }

  /** The deferred release of the key copies settles the ledger. */
  method DestroyKeys(cKeys: array<Ptr>, ghost rs: seq<KeyResult>, ghost ptrs: seq<Ptr>, ghost start: Ledger, heap: Allocator)
    requires Fetched(rs, ptrs, start, heap.State(), cKeys[..])
    modifies heap
    ensures Settled(rs, ptrs, start, heap.State())
  {
    ghost var fetched := heap.State();
    assert forall i :: 0 <= i < cKeys.Length ==> cKeys[i] == cKeys[..][i];
    DestroyChars(cKeys, heap);
    KeysReleased(rs, ptrs, start, fetched, heap.State(), cKeys[..]);
  }

  /**
   * `DB.MultiGet`. The ledger is settled on both exits; the error counts the failing keys and quotes the first; the
   * slices own the values of their keys.
   */
  method MultiGet(db: Database, keys: seq<bytes>, heap: Allocator) returns (r: Outcome, ghost ptrs: seq<Ptr>)
    requires heap.Valid()
    modifies heap
    ensures Settled(Lookups(db, keys), ptrs, old(heap.State()), heap.State())
    ensures r.Failed? <==> exists i :: 0 <= i < |keys| && db(keys[i]).Error?
    ensures r.Failed? ==> && r.count == |Failing(db, keys)|
                          && exists i :: 0 <= i < |keys| && FirstError(keys, Lookups(db, keys), i, r.key, r.message)
    ensures r.Got? ==> && (forall i :: 0 <= i < |r.slices| ==> fresh(r.slices[i]))
                       && (forall i, j :: 0 <= i < j < |r.slices| ==> r.slices[i] != r.slices[j])
                       && OwnValues(Lookups(db, keys), States(r.slices), heap.State())
  {
    ghost var start, rs := heap.State(), Lookups(db, keys);
    var cKeys, vals, valSizes, errs;
    ghost var rocksErrs;
    cKeys, vals, valSizes, errs, ptrs, rocksErrs := Fetch(db, keys, heap);
    ErrorsCollected(db, keys, errs);

    if |errs| > 0 {
      DestroyKeys(cKeys, rs, ptrs, start, heap);
      return Failed(|errs|, errs[0].0, errs[0].1), ptrs;
    }

    var slices := WrapValues(vals, valSizes);
    ghost var ss := States(slices);
    DestroyKeys(cKeys, rs, ptrs, start, heap);
    ValuesOwned(rs, ptrs, start, vals[..], valSizes[..], rocksErrs, ss, heap.State());
    assert States(slices) == ss;
    return Got(slices), ptrs;
  }

  /** There is a collected error exactly if some key failed; they are as many as the failing keys, and start with the first. */
  lemma {:induction false} ErrorsCollected(db: Database, keys: seq<bytes>, errs: seq<(bytes, bytes)>)
    requires Collected(keys, Lookups(db, keys), |keys|, errs)
    ensures |errs| == |Failing(db, keys)|
    ensures errs != [] <==> exists i :: 0 <= i < |keys| && db(keys[i]).Error?
    ensures errs == [] ==> forall i :: 0 <= i < |keys| ==> !Lookups(db, keys)[i].Error?
    ensures errs != [] ==> exists i :: 0 <= i < |keys| && FirstError(keys, Lookups(db, keys), i, errs[0].0, errs[0].1)
  {
    var rs := Lookups(db, keys);
    assert rs[..|keys|] == rs;
    ErrorsCount(db, keys);
  }

  lemma {:induction false} ErrorsCount(db: Database, keys: seq<bytes>)
    ensures Errors(Lookups(db, keys)) == |Failing(db, keys)|
  {
    if keys != [] {
      var n := |keys| - 1;
      ErrorsCount(db, keys[..n]);
      assert Lookups(db, keys)[..n] == Lookups(db, keys[..n]);
      assert Failing(db, keys) == Failing(db, keys[..n]) + if db(keys[n]).Error? then {n} else {};
    }
  }

  lemma {:induction false} CountInRange(chars: seq<Ptr>, first: Ptr, p: Ptr)
    requires forall i :: 0 <= i < |chars| ==> chars[i] == first + i
    ensures multiset(chars)[p] == if first <= p < first + |chars| then 1 else 0
  {
    if chars == [] {
    } else {
      var n := |chars| - 1;
      CountInRange(chars[..n], first, p);
      assert chars == chars[..n] + [chars[n]];
    }
  }

  lemma {:induction false} MembersInRange(chars: seq<Ptr>, first: Ptr)
    requires forall i :: 0 <= i < |chars| ==> chars[i] == first + i
    ensures forall p: Ptr :: p in Members(chars) <==> first <= p < first + |chars|
    ensures forall p: Ptr :: multiset(chars)[p] == if first <= p < first + |chars| then 1 else 0
  {
    forall p: Ptr
      ensures multiset(chars)[p] == if first <= p < first + |chars| then 1 else 0
      ensures p in chars <==> first <= p < first + |chars|
    {
      CountInRange(chars, first, p);
      if first <= p < first + |chars| {
        assert chars[p - first] == p;
      }
    }
  }

  lemma {:induction false} ResultsStay(rs: seq<KeyResult>, ptrs: seq<Ptr>, base: Ptr, live: map<Ptr, bytes>, gone: set<Ptr>)
    requires Buffers(rs, ptrs, base, |rs|) && LiveResults(rs, ptrs, base, live, |rs|, |rs|) && forall p :: p in gone ==> p < base
    ensures LiveResults(rs, ptrs, base, live - gone, |rs|, |rs|)
  {
  }

  /** Releasing the key copies settles the ledger. */
  lemma {:induction false} KeysReleased(rs: seq<KeyResult>, ptrs: seq<Ptr>, start: Ledger, l: Ledger, l': Ledger, chars: seq<Ptr>)
    requires Fetched(rs, ptrs, start, l, chars)
    requires Balanced(l') && l'.live == l.live - Members(chars) && l'.released == l.released + multiset(chars)
    ensures Settled(rs, ptrs, start, l')
  {
    MembersInRange(chars, start.next);
    ResultsStay(rs, ptrs, start.next + |rs|, l.live, Members(chars));
  }

  lemma {:induction false} ValuesOwned(rs: seq<KeyResult>, ptrs: seq<Ptr>, start: Ledger, vals: seq<Ptr>, valSizes: seq<nat>, errs: seq<Ptr>,
                                       ss: seq<SliceState>, l: Ledger)
    requires Settled(rs, ptrs, start, l) && |ss| == |rs| && forall i :: 0 <= i < |rs| ==> !rs[i].Error?
    requires HoldsUpTo(rs, ptrs, |rs|, vals, valSizes, errs)
    requires forall i :: 0 <= i < |rs| ==> ss[i] == SliceState(vals[i], valSizes[i], false)
    ensures OwnValues(rs, ss, l)
  {
    forall i | 0 <= i < |rs|
      ensures OwnsValue(rs[i], ss[i], l)
      ensures ss[i].data == ptrs[i]
    {
      assert Holds(rs[i], ptrs[i], vals[i], valSizes[i], errs[i]);
      if rs[i].Found? {
        assert Held(rs, |rs|, |rs|, i);
        assert l.live[vals[i]][..valSizes[i]] == rs[i].value;
      }
    }
  }
}
