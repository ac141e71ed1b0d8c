/** The range-tombstone list (extend_inner.cc) and the iterator over it (extend_inner.go), as one thread uses them. */
module Tombstones {
  import opened Bits
  import opened Runtime

  type bytes = seq<byte>

  datatype Tombstone = Tombstone(startKey: bytes, ts: bytes, seqNo: nat, endKey: bytes)

  /** What the table cache answers for a file: an error, no iterator, or an iterator over tombstones. */
  datatype FileAnswer = Failed(message: string) | NoIterator | Fragments(items: seq<Tombstone>)

  /** The files of every level. */
  type Storage = seq<seq<FileAnswer>>

  datatype Built = List(rep: seq<Tombstone>) | Error(message: string)

  function OfFile(f: FileAnswer): seq<Tombstone> {
    if f.Fragments? then f.items else []
  }

  /** The tombstones of the first `n` files of a level, in order. */
  function OfFiles(files: seq<FileAnswer>, n: nat): seq<Tombstone>
    requires n <= |files|
  {
    if n == 0 then [] else OfFiles(files, n - 1) + OfFile(files[n - 1])
  }

  /** The tombstones of the first `n` levels, in order. */
  function OfLevels(levels: Storage, n: nat): seq<Tombstone>
    requires n <= |levels|
  {
    if n == 0 then [] else OfLevels(levels, n - 1) + OfFiles(levels[n - 1], |levels[n - 1]|)
  }

  ghost predicate Readable(files: seq<FileAnswer>, n: nat)
    requires n <= |files|
  {
    forall i :: 0 <= i < n ==> !files[i].Failed?
  }

  ghost predicate AllReadable(levels: Storage, n: nat)
    requires n <= |levels|
  {
    forall i :: 0 <= i < n ==> Readable(levels[i], |levels[i]|)
  }

  lemma {:induction false} Associative<T>(a: seq<T>, b: seq<T>, c: seq<T>)
    ensures a + b + c == a + (b + c)
  {
  }

  /** `rocksdb_column_family_handle_range_tombstone_list`: the first unreadable file ends the scan, otherwise all is kept in order. */
  method BuildList(levels: Storage) returns (r: Built)
    ensures r.List? <==> AllReadable(levels, |levels|)
    ensures r.List? ==> r.rep == OfLevels(levels, |levels|)
    ensures r.Error? ==> exists l, f :: 0 <= l < |levels| && 0 <= f < |levels[l]| && levels[l][f] == Failed(r.message)
                                        && AllReadable(levels, l) && Readable(levels[l], f)
    ensures r.List? ==> |r.rep| == Total(levels, |levels|)
    ensures r.List? ==> exists places :: Enumerates(levels, places) && Copied(levels, places, r.rep)
  {
    var tombstones: seq<Tombstone> := [];
    for level := 0 to |levels|
      invariant AllReadable(levels, level) && tombstones == OfLevels(levels, level)
    {
      var files := levels[level];
      for file := 0 to |files|
        invariant Readable(files, file)
        invariant tombstones == OfLevels(levels, level) + OfFiles(files, file)
      {
        ghost var before := tombstones;
        var answer := files[file];
        if answer.Failed? {
          return Error(answer.message);
        }
        if answer.Fragments? {
          // seek to the first, then advance while valid
          var at := 0;
          while at < |answer.items|
            invariant at <= |answer.items|
            invariant tombstones == before + answer.items[..at]
          {
            var cur := answer.items[at];
            tombstones := tombstones + [Tombstone(cur.startKey, cur.ts, cur.seqNo, cur.endKey)];
            at := at + 1;
          }
          assert answer.items[..at] == answer.items;
        }
        assert tombstones == before + OfFile(answer);
        Associative(OfLevels(levels, level), OfFiles(files, file), OfFile(answer));
      }
    }
    ghost var places := FlattensInOrder(levels);
    return List(tombstones);
  }

  // ----- nothing is lost, added or reordered -----

  /** How many tombstones come before those of a file. */
  function Offset(levels: Storage, l: nat, f: nat): nat
    requires l < |levels| && f <= |levels[l]|
  {
    |OfLevels(levels, l)| + |OfFiles(levels[l], f)|
  }

  lemma {:induction false} FilesGrow(files: seq<FileAnswer>, f: nat, n: nat)
    requires f <= n <= |files|
    ensures OfFiles(files, f) <= OfFiles(files, n)
    decreases n
  {
    if f < n {
      FilesGrow(files, f, n - 1);
    }
  }

  lemma {:induction false} LevelsGrow(levels: Storage, l: nat, n: nat)
    requires l <= n <= |levels|
    ensures OfLevels(levels, l) <= OfLevels(levels, n)
    decreases n
  {
    if l < n {
      LevelsGrow(levels, l, n - 1);
    }
  }

  /** Every tombstone of every file is in the list, behind those of earlier levels, files and positions. */
  lemma {:induction false} EveryTombstoneListed(levels: Storage, l: nat, f: nat, i: nat)
    requires l < |levels| && f < |levels[l]| && levels[l][f].Fragments? && i < |levels[l][f].items|
    ensures Offset(levels, l, f) + i < |OfLevels(levels, |levels|)|
    ensures OfLevels(levels, |levels|)[Offset(levels, l, f) + i] == levels[l][f].items[i]
  {
    LevelsGrow(levels, l + 1, |levels|);
    FilesGrow(levels[l], f + 1, |levels[l]|);
    var n := |OfFiles(levels[l], f)| + i;
    assert OfFiles(levels[l], f + 1)[n] == OfFile(levels[l][f])[i];
    assert OfLevels(levels, l + 1)[|OfLevels(levels, l)| + n] == OfFiles(levels[l], |levels[l]|)[n];
  }

  /** Every list entry comes from a file. */
  lemma {:induction false} EveryEntryFromFile(levels: Storage, n: nat, at: nat) returns (l: nat, f: nat, i: nat)
    requires n <= |levels| && at < |OfLevels(levels, n)|
    ensures l < n && f < |levels[l]| && levels[l][f].Fragments? && i < |levels[l][f].items| && at == Offset(levels, l, f) + i
    decreases n
  {
    var before := |OfLevels(levels, n - 1)|;
    if at < before {
      l, f, i := EveryEntryFromFile(levels, n - 1, at);
    } else {
      l := n - 1;
      f, i := EntryFromFile(levels[l], |levels[l]|, at - before);
    }
  }

  lemma {:induction false} EntryFromFile(files: seq<FileAnswer>, n: nat, at: nat) returns (f: nat, i: nat)
    requires n <= |files| && at < |OfFiles(files, n)|
    ensures f < n && files[f].Fragments? && i < |files[f].items| && at == |OfFiles(files, f)| + i
    decreases n
  {
    var before := |OfFiles(files, n - 1)|;
    if at < before {
      f, i := EntryFromFile(files, n - 1, at);
    } else {
      f, i := n - 1, at - before;
    }
  }

  // ----- the list by place -----

  /** A tombstone's place: its level, the file in that level, and its position in that file. */
  datatype Place = Place(level: nat, file: nat, pos: nat)

  ghost predicate IsPlace(levels: Storage, p: Place) {
    && p.level < |levels|
    && p.file < |levels[p.level]|
    && levels[p.level][p.file].Fragments?
    && p.pos < |levels[p.level][p.file].items|
  }

  ghost predicate Earlier(p: Place, q: Place) {
    p.level < q.level || (p.level == q.level && (p.file < q.file || (p.file == q.file && p.pos < q.pos)))
  }

  /** All places there are, each once, by level, then file, then position. */
  ghost predicate Enumerates(levels: Storage, places: seq<Place>) {
    && (forall k :: 0 <= k < |places| ==> IsPlace(levels, places[k]))
    && (forall k, n :: 0 <= k < n < |places| ==> Earlier(places[k], places[n]))
    && (forall p :: IsPlace(levels, p) ==> p in places)
  }

  /** Each entry is the tombstone at its place. */
  ghost predicate Copied(levels: Storage, places: seq<Place>, rep: seq<Tombstone>) {
    && |rep| == |places|
    && forall k :: 0 <= k < |places| ==>
         && IsPlace(levels, places[k])
         && rep[k] == levels[places[k].level][places[k].file].items[places[k].pos]
  }

  /** How many tombstones the first `n` files of a level have; a file without an iterator has none. */
  function TotalInFiles(files: seq<FileAnswer>, n: nat): nat
    requires n <= |files|
  {
    if n == 0 then 0
    else TotalInFiles(files, n - 1) + match files[n - 1] case Fragments(items) => |items| case _ => 0
  }

  function Total(levels: Storage, n: nat): nat
    requires n <= |levels|
  {
    if n == 0 then 0 else Total(levels, n - 1) + TotalInFiles(levels[n - 1], |levels[n - 1]|)
  }

  lemma {:induction false} LengthInFiles(files: seq<FileAnswer>, n: nat)
    requires n <= |files|
    ensures |OfFiles(files, n)| == TotalInFiles(files, n)
  {
    if n > 0 {
      LengthInFiles(files, n - 1);
    }
  }

  lemma {:induction false} LengthInLevels(levels: Storage, n: nat)
    requires n <= |levels|
    ensures |OfLevels(levels, n)| == Total(levels, n)
  {
    if n > 0 {
      LengthInLevels(levels, n - 1);
      LengthInFiles(levels[n - 1], |levels[n - 1]|);
    }
  }

  /** Where the tombstone of a place is in the list. */
  function IndexOf(levels: Storage, p: Place): nat
    requires p.level < |levels| && p.file < |levels[p.level]|
  {
    Offset(levels, p.level, p.file) + p.pos
  }

  lemma {:induction false} IndexInOrder(levels: Storage, p: Place, q: Place)
    requires IsPlace(levels, p) && IsPlace(levels, q) && Earlier(p, q)
    ensures IndexOf(levels, p) < IndexOf(levels, q)
  {
    if p.level < q.level {
      LevelsGrow(levels, p.level + 1, q.level);
      FilesGrow(levels[p.level], p.file + 1, |levels[p.level]|);
    } else if p.file < q.file {
      FilesGrow(levels[p.level], p.file + 1, q.file);
    }
  }

  /** The places of the first `n` list entries. */
  lemma {:induction false} PlacesUpTo(levels: Storage, n: nat) returns (places: seq<Place>)
    requires n <= |OfLevels(levels, |levels|)|
    ensures |places| == n
    ensures forall k :: 0 <= k < n ==> IsPlace(levels, places[k]) && IndexOf(levels, places[k]) == k
  {
    if n == 0 {
      places := [];
    } else {
      var before := PlacesUpTo(levels, n - 1);
      var l, f, i := EveryEntryFromFile(levels, |levels|, n - 1);
      places := before + [Place(l, f, i)];
    }
  }

  lemma {:induction false} PlacesInOrder(levels: Storage, p: Place, q: Place)
    requires IsPlace(levels, p) && IsPlace(levels, q) && IndexOf(levels, p) < IndexOf(levels, q)
    ensures Earlier(p, q)
  {
    if Earlier(q, p) {
      IndexInOrder(levels, q, p);
    }
  }

  /** The flat list has the tombstone of every place, in order, and nothing else. */
  lemma {:induction false} FlattensInOrder(levels: Storage) returns (places: seq<Place>)
    ensures Enumerates(levels, places) && Copied(levels, places, OfLevels(levels, |levels|))
    ensures |OfLevels(levels, |levels|)| == Total(levels, |levels|)
  {
    LengthInLevels(levels, |levels|);
    places := PlacesUpTo(levels, |OfLevels(levels, |levels|)|);
    forall k | 0 <= k < |places|
      ensures OfLevels(levels, |levels|)[k] == levels[places[k].level][places[k].file].items[places[k].pos]
    {
      EveryTombstoneListed(levels, places[k].level, places[k].file, places[k].pos);
    }
    forall k, n | 0 <= k < n < |places| ensures Earlier(places[k], places[n]) {
      PlacesInOrder(levels, places[k], places[n]);
    }
    forall p | IsPlace(levels, p) ensures p in places {
      EveryTombstoneListed(levels, p.level, p.file, p.pos);
      SamePlace(levels, places[IndexOf(levels, p)], p);
    }
  }

  lemma {:induction false} SamePlace(levels: Storage, p: Place, q: Place)
    requires IsPlace(levels, p) && IsPlace(levels, q) && IndexOf(levels, p) == IndexOf(levels, q)
    ensures p == q
  {
    if Earlier(p, q) {
      IndexInOrder(levels, p, q);
    } else if Earlier(q, p) {
      IndexInOrder(levels, q, p);
    }
  }

  // ----- the iterator -----

  class RangeTombstoneIterator {
    const c: seq<Tombstone>
    var cur: nat
    const size: nat

    ghost predicate Valid()
      reads this
    {
      size == |c| && cur <= size
    }

    /** What is still to be handed out. */
    ghost function Rest(): seq<Tombstone>
      requires Valid()
      reads this
    {
      c[cur..]
    }

    constructor NewRangeTombstoneIterator(list: seq<Tombstone>)
      ensures Valid() && Rest() == list
    {
      c := list;
      cur := 0;
      size := |list|;
    }

    /** Hands out the next tombstone, until there is none. */
    method Next() returns (tombstone: Option<Tombstone>, ok: bool)
      requires Valid()
      modifies this
      ensures Valid() && ok == tombstone.Some? && ok == (old(Rest()) != [])
      ensures ok ==> old(Rest()) == [tombstone.value] + Rest()
      ensures !ok ==> Rest() == []
    {
      ok := false;
      var at := cur;
      if at < size {
        ok := true;
        cur := cur + 1;
      }
      if !ok {
        return None, false;
      }
      var startKey := c[at].startKey;
      var endKey := c[at].endKey;
      var ts := c[at].ts;
      var seqNo := c[at].seqNo;
      return Some(Tombstone(startKey, ts, seqNo, endKey)), true;
    }
  }
}
