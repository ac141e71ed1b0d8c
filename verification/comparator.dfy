/** The timestamped-key comparator (db_ts_test.go) under the contract of comparator.go. */
module Comparator {
  import opened Bits
  import opened Runtime

  type bytes = seq<byte>

  /** A three-way comparison: negative, zero or positive. */
  type Comparing = (bytes, bytes) -> int

  const TIMESTAMP_SIZE := 8
  const INTERNAL_KEY_SIZE := 8

  // ----- timestamps -----

  function BigEndian(s: bytes): nat {
    if s == [] then 0 else 256 * BigEndian(s[..|s| - 1]) + s[|s| - 1]
  }

  /** The timestamp at the front of a slice: `binary.BigEndian.Uint64`. */
  function Timestamp(s: bytes): nat
    requires |s| >= TIMESTAMP_SIZE
  {
    BigEndian(s[..TIMESTAMP_SIZE])
  }

  /** `marshalTimestamp`: the eight bytes that read back as the timestamp, high byte first. */
  method MarshalTimestamp(ts: nat) returns (b: array<byte>)
    requires ts < TWO_64
    ensures fresh(b) && b.Length == TIMESTAMP_SIZE && Timestamp(b[..]) == ts
    ensures HighByteFirst(ts, b[..])
  {
    b := new byte[TIMESTAMP_SIZE];
    Pow2Values();
    for i := 0 to TIMESTAMP_SIZE
      invariant BigEndian(b[..i]) == Shr(ts, 64 - 8 * i)
      invariant forall j :: 0 <= j < i ==> b[j] == Shr(ts, 56 - 8 * j) % 256
    {
      ghost var before := b[..i];
      b[i] := Shr(ts, 56 - 8 * i) % 256;
      assert b[..i + 1] == before + [b[i]];
      NextByte(before, b[i], ts, 56 - 8 * i);
    }
    assert b[..][..TIMESTAMP_SIZE] == b[..TIMESTAMP_SIZE];
    HighBytesFirst(ts, b[..]);
  }

  /** The eight bytes of a word: byte `i` is the digit to base 256 that weighs 256^(7-i). */
  ghost predicate HighByteFirst(ts: nat, s: bytes) {
    && |s| == 8
    && s[0] == ts / 0x100_0000_0000_0000 % 256
    && s[1] == ts / 0x1_0000_0000_0000 % 256
    && s[2] == ts / 0x100_0000_0000 % 256
    && s[3] == ts / 0x1_0000_0000 % 256
    && s[4] == ts / 0x100_0000 % 256
    && s[5] == ts / 0x1_0000 % 256
    && s[6] == ts / 0x100 % 256
    && s[7] == ts % 256
  }

  lemma {:induction false} HighBytesFirst(ts: nat, s: bytes)
    requires |s| == 8 && forall j :: 0 <= j < 8 ==> s[j] == Shr(ts, 56 - 8 * j) % 256
    ensures HighByteFirst(ts, s)
  {
    Pow2Bytes();
  }

  lemma {:induction false} Pow2Bytes()
    ensures Pow2(0) == 1 && Pow2(8) == 0x100 && Pow2(16) == 0x1_0000 && Pow2(24) == 0x100_0000
    ensures Pow2(32) == 0x1_0000_0000 && Pow2(40) == 0x100_0000_0000
    ensures Pow2(48) == 0x1_0000_0000_0000 && Pow2(56) == 0x100_0000_0000_0000
  {
    Pow2Values();
    Pow2Add(8, 8);
    Pow2Add(8, 16);
    Pow2Add(16, 16);
    Pow2Add(8, 32);
    Pow2Add(16, 32);
    Pow2Add(24, 32);
  }

  lemma {:induction false} NextByte(s: bytes, x: byte, ts: nat, k: nat)
    requires BigEndian(s) == Shr(ts, k + 8) && x == Shr(ts, k) % 256
    ensures BigEndian(s + [x]) == Shr(ts, k)
  {
    ShiftByte(ts, k);
    assert (s + [x])[..|s|] == s;
  }

  lemma {:induction false} ShiftByte(x: nat, k: nat)
    ensures Shr(x, k) == 256 * Shr(x, k + 8) + Shr(x, k) % 256
  {
    Pow2Values();
    Pow2Add(8, k);
    DivTwice(x, Pow2(k));
  }

  lemma {:induction false} DivTwice(x: nat, p: nat)
    requires p > 0
    ensures x / (256 * p) == x / p / 256
  {
    var q, r := x / p, x % p;
    var h, l := q / 256, q % 256;
    assert x == p * q + r && q == 256 * h + l;
    Distribute(p, h, l);
    MulMonotone(l, 255, p);
    DivModUnique(256 * p, h, p * l + r);
  }

  lemma {:induction false} Distribute(p: nat, h: nat, l: nat)
    ensures p * (256 * h + l) == h * (256 * p) + p * l
  {
    assert p * (256 * h) == h * (256 * p);
  }

  lemma {:induction false} BigEndianInjective(s: bytes, t: bytes)
    requires |s| == |t| && BigEndian(s) == BigEndian(t)
    ensures s == t
  {
    if s == [] {
    } else {
      var n := |s| - 1;
      BigEndianInjective(s[..n], t[..n]);
      assert s == s[..n] + [s[n]] && t == t[..n] + [t[n]];
    }
  }

  // ----- the comparator -----

  function ExtractUserKey(key: bytes): bytes
    requires |key| >= TIMESTAMP_SIZE
  {
    key[..|key| - TIMESTAMP_SIZE]
  }

  function ExtractUserTimestamp(key: bytes): bytes
    requires |key| >= TIMESTAMP_SIZE
  {
    key[|key| - TIMESTAMP_SIZE..]
  }

  function ExtractFromInternalKey(internalKey: bytes): (bytes, bytes)
    requires |internalKey| >= INTERNAL_KEY_SIZE + TIMESTAMP_SIZE
  {
    var userKey := internalKey[..|internalKey| - INTERNAL_KEY_SIZE];
    (ExtractUserKey(userKey), ExtractUserTimestamp(userKey))
  }

  function CompareTS(a: bytes, b: bytes): int
    requires |a| >= TIMESTAMP_SIZE && |b| >= TIMESTAMP_SIZE
  {
    if Timestamp(a) < Timestamp(b) then -1 else if Timestamp(a) > Timestamp(b) then 1 else 0
  }

  function Compare(userCompare: Comparing, a: bytes, b: bytes): int
    requires |a| >= TIMESTAMP_SIZE && |b| >= TIMESTAMP_SIZE
  {
    var res := userCompare(ExtractUserKey(a), ExtractUserKey(b));
    if res != 0 then res
    else CompareTS(ExtractUserTimestamp(a), ExtractUserTimestamp(b)) * -1
  }

  function CompareWithoutTS(userCompare: Comparing, a: bytes, aHasTs: bool, b: bytes, bHasTs: bool): int
    requires (aHasTs ==> |a| >= TIMESTAMP_SIZE) && (bHasTs ==> |b| >= TIMESTAMP_SIZE)
  {
    userCompare(if aHasTs then ExtractUserKey(a) else a, if bHasTs then ExtractUserKey(b) else b)
  }

  // ----- order laws -----

  function Sign(x: int): int {
    if x < 0 then -1 else if x > 0 then 1 else 0
  }

  /** Antisymmetry and transitivity of a comparison, by sign. */
  ghost predicate Lawful(cmp: Comparing) {
    && (forall a, b {:trigger cmp(a, b)} :: Sign(cmp(a, b)) == -Sign(cmp(b, a)))
    && (forall a, b, c :: cmp(a, b) <= 0 && cmp(b, c) <= 0 ==> cmp(a, c) <= 0)
  }

  /** A full key: user key, then eight bytes of timestamp. */
  ghost predicate FullKey(k: bytes) {
    |k| >= TIMESTAMP_SIZE
  }

  ghost predicate FullKeys(ks: seq<bytes>) {
    forall i :: 0 <= i < |ks| ==> |ks[i]| >= TIMESTAMP_SIZE
  }

  /** The timestamp that a full key carries at its end. */
  function TimeOf(k: bytes): nat
    requires |k| >= TIMESTAMP_SIZE
  {
    Timestamp(ExtractUserTimestamp(k))
  }

  /** On full keys, `Compare` orders by user key, and among equal user keys by descending timestamp. */
  lemma {:induction false} CompareMeans(cmp: Comparing, a: bytes, b: bytes)
    requires FullKey(a) && FullKey(b)
    ensures Compare(cmp, a, b) < 0 <==>
              cmp(ExtractUserKey(a), ExtractUserKey(b)) < 0
              || (cmp(ExtractUserKey(a), ExtractUserKey(b)) == 0 && TimeOf(a) > TimeOf(b))
    ensures Compare(cmp, a, b) == 0 <==> cmp(ExtractUserKey(a), ExtractUserKey(b)) == 0 && TimeOf(a) == TimeOf(b)
  {
  }

  /** Of two byte strings of one length, the one with the larger byte at the first difference is the larger number. */
  lemma {:induction false} BigEndianFirstDifference(s: bytes, t: bytes, j: nat)
    requires j < |s| == |t| && s[..j] == t[..j] && s[j] > t[j]
    ensures BigEndian(s) > BigEndian(t)
  {
    var n := |s| - 1;
    if j == n {
      assert s[..n] == t[..n];
    } else {
      assert s[..n][..j] == s[..j] && t[..n][..j] == t[..j];
      BigEndianFirstDifference(s[..n], t[..n], j);
    }
  }

  /** `CompareTS` goes by the first of eight bytes that differs, smaller byte first, and is zero if none does. */
  lemma {:induction false} CompareTSByBytes(a: bytes, b: bytes)
    requires |a| >= 8 && |b| >= 8
    ensures CompareTS(a, b) == 0 <==> forall i :: 0 <= i < 8 ==> a[i] == b[i]
    ensures CompareTS(a, b) == -1 <==> exists j :: 0 <= j < 8 && (forall i :: 0 <= i < j ==> a[i] == b[i]) && a[j] < b[j]
    ensures CompareTS(a, b) == 1 <==> exists j :: 0 <= j < 8 && (forall i :: 0 <= i < j ==> a[i] == b[i]) && a[j] > b[j]
  {
    if forall i :: 0 <= i < 8 ==> a[i] == b[i] {
      assert a[..8] == b[..8];
    } else {
      var j := FirstDifference(a, b, 0);
      assert a[..8][..j] == b[..8][..j];
      if a[j] > b[j] {
        BigEndianFirstDifference(a[..8], b[..8], j);
      } else {
        BigEndianFirstDifference(b[..8], a[..8], j);
      }
    }
  }

  lemma {:induction false} FirstDifference(a: bytes, b: bytes, from: nat) returns (j: nat)
    requires |a| >= 8 && |b| >= 8 && from <= 8
    requires (forall i :: 0 <= i < from ==> a[i] == b[i]) && exists i :: 0 <= i < 8 && a[i] != b[i]
    ensures j < 8 && a[j] != b[j] && forall i :: 0 <= i < j ==> a[i] == b[i]
    decreases 8 - from
  {
    if a[from] != b[from] {
      j := from;
    } else {
      j := FirstDifference(a, b, from + 1);
    }
  }

  /**
   * Newest first, in bytes: of two full keys with equal user keys, the one with the larger byte at the first difference
   * of their eight timestamp bytes comes first; without such a difference they compare equal.
   */
  lemma {:induction false} NewerBytesFirst(cmp: Comparing, u: bytes, s: bytes, v: bytes, t: bytes, j: nat)
    requires |s| == |t| == 8 && cmp(u, v) == 0
    requires j <= 8 && forall i :: 0 <= i < j ==> s[i] == t[i]
    ensures j == 8 ==> Compare(cmp, u + s, v + t) == 0
    ensures j < 8 && s[j] > t[j] ==> Compare(cmp, u + s, v + t) == -1
    ensures j < 8 && s[j] < t[j] ==> Compare(cmp, u + s, v + t) == 1
  {
    assert ExtractUserKey(u + s) == u && ExtractUserKey(v + t) == v;
    assert ExtractUserTimestamp(u + s) == s && ExtractUserTimestamp(v + t) == t;
    CompareTSByBytes(s, t);
  }

  /** User keys come first: unless they are equal, the timestamps play no part. */
  lemma {:induction false} UserKeyFirst(cmp: Comparing, u: bytes, s: bytes, v: bytes, t: bytes)
    requires |s| == |t| == 8 && cmp(u, v) != 0
    ensures Compare(cmp, u + s, v + t) == cmp(u, v)
  {
    assert ExtractUserKey(u + s) == u && ExtractUserKey(v + t) == v;
  }

  /** `Compare` is a total order on full keys whenever the user's comparison is one. */
  lemma {:induction false} CompareLawful(cmp: Comparing, a: bytes, b: bytes, c: bytes)
    requires Lawful(cmp) && FullKey(a) && FullKey(b) && FullKey(c)
    ensures Compare(cmp, a, a) == 0
    ensures Sign(Compare(cmp, a, b)) == -Sign(Compare(cmp, b, a))
    ensures Compare(cmp, a, b) <= 0 && Compare(cmp, b, c) <= 0 ==> Compare(cmp, a, c) <= 0
  {
  }

  /** If the user's comparison tells all keys apart, so does `Compare`. */
  lemma {:induction false} CompareSeparates(cmp: Comparing, a: bytes, b: bytes)
    requires FullKey(a) && FullKey(b)
    requires forall x, y :: cmp(x, y) == 0 <==> x == y
    ensures Compare(cmp, a, b) == 0 <==> a == b
  {
    if Compare(cmp, a, b) == 0 {
      var s, t := ExtractUserTimestamp(a), ExtractUserTimestamp(b);
      assert s[..TIMESTAMP_SIZE] == s && t[..TIMESTAMP_SIZE] == t;
      BigEndianInjective(s, t);
      assert a == ExtractUserKey(a) + s && b == ExtractUserKey(b) + t;
    }
  }

  /**
   * Under all four combinations of has-timestamp flags, `CompareWithoutTS` on two keys given with or without their
   * timestamps is zero exactly when the user keys are equal, and otherwise has the sign of `Compare`.
   */
  lemma {:induction false} WithoutTSAgrees(cmp: Comparing, a: bytes, aHasTs: bool, b: bytes, bHasTs: bool)
    requires FullKey(a) && FullKey(b)
    ensures var x := if aHasTs then a else ExtractUserKey(a);
            var y := if bHasTs then b else ExtractUserKey(b);
            var r := CompareWithoutTS(cmp, x, aHasTs, y, bHasTs);
            && (r == 0 <==> cmp(ExtractUserKey(a), ExtractUserKey(b)) == 0)
            && (r != 0 ==> Sign(r) == Sign(Compare(cmp, a, b)))
  {
  }

  /** An internal key is a full key and eight bytes more. */
  lemma {:induction false} InternalKeyParts(userKey: bytes, ts: bytes, footer: bytes)
    requires |ts| == TIMESTAMP_SIZE && |footer| == INTERNAL_KEY_SIZE
    ensures ExtractFromInternalKey(userKey + ts + footer) == (userKey, ts)
  {
    assert (userKey + ts + footer)[..|userKey| + TIMESTAMP_SIZE] == userKey + ts;
  }

  // ----- the newest visible version -----

  ghost predicate SortedKeys(cmp: Comparing, ks: seq<bytes>) {
    && FullKeys(ks)
    && (forall i, j :: 0 <= i < j < |ks| ==> Compare(cmp, ks[i], ks[j]) < 0)
  }

  ghost predicate VersionOf(cmp: Comparing, key: bytes, user: bytes)
    requires FullKey(key)
  {
    cmp(ExtractUserKey(key), user) == 0
  }

  /** All versions of a user key are contiguous, newest first. */
  lemma {:induction false} VersionsContiguous(cmp: Comparing, ks: seq<bytes>, user: bytes, i: nat, j: nat)
    requires Lawful(cmp) && SortedKeys(cmp, ks) && i < j < |ks|
    requires VersionOf(cmp, ks[i], user) && VersionOf(cmp, ks[j], user)
    ensures TimeOf(ks[i]) > TimeOf(ks[j])
    ensures forall m :: i <= m <= j ==> VersionOf(cmp, ks[m], user)
  {
  }

  /** The first entry at or after a target: where a seek lands. */
  function LowerBound(cmp: Comparing, ks: seq<bytes>, target: bytes): (i: nat)
    requires FullKey(target) && FullKeys(ks)
    ensures i <= |ks| && (i < |ks| ==> Compare(cmp, ks[i], target) >= 0)
    ensures forall j :: 0 <= j < i ==> Compare(cmp, ks[j], target) < 0
  {
    if ks == [] || Compare(cmp, ks[0], target) >= 0 then 0 else 1 + LowerBound(cmp, ks[1..], target)
  }

  /**
   * Seeking a user key at a read timestamp lands on the newest version that is not newer than that timestamp, if there
   * is one; and if the entry it lands on is of another user key (or there is none), there is no such version.
   */
  lemma {:induction false} NewestVisible(cmp: Comparing, ks: seq<bytes>, target: bytes)
    requires Lawful(cmp) && SortedKeys(cmp, ks) && FullKey(target)
    ensures var (user, t, i) := (ExtractUserKey(target), TimeOf(target), LowerBound(cmp, ks, target));
            if i < |ks| && VersionOf(cmp, ks[i], user) then
              && TimeOf(ks[i]) <= t
              && forall j :: 0 <= j < |ks| && VersionOf(cmp, ks[j], user) && TimeOf(ks[j]) <= t ==> TimeOf(ks[j]) <= TimeOf(ks[i])
            else
              forall j :: 0 <= j < |ks| && VersionOf(cmp, ks[j], user) ==> TimeOf(ks[j]) > t
  {
  }

  // ----- a store kept in this order -----

  /** Puts a key where the order wants it; a key of the same user key and timestamp is replaced. */
  function Put(cmp: Comparing, ks: seq<bytes>, k: bytes): (r: seq<bytes>)
    requires FullKey(k) && FullKeys(ks)
    ensures FullKeys(r) && forall x :: x in r ==> x == k || x in ks
  {
    if ks == [] then [k]
    else if Compare(cmp, ks[0], k) < 0 then [ks[0]] + Put(cmp, ks[1..], k)
    else if Compare(cmp, ks[0], k) == 0 then [k] + ks[1..]
    else [k] + ks
  }

  /** The store after a history of writes, oldest first. */
  function Store(cmp: Comparing, writes: seq<bytes>): (ks: seq<bytes>)
    requires FullKeys(writes)
    ensures FullKeys(ks)
  {
    if writes == [] then [] else Put(cmp, Store(cmp, writes[..|writes| - 1]), writes[|writes| - 1])
  }

  /** The timestamp of the version that a seek lands on, if it lands on one of the user key it seeks. */
  ghost function Seek(cmp: Comparing, ks: seq<bytes>, target: bytes): Option<nat>
    requires FullKey(target) && FullKeys(ks)
  {
    var i := LowerBound(cmp, ks, target);
    if i < |ks| && VersionOf(cmp, ks[i], ExtractUserKey(target)) then Some(TimeOf(ks[i])) else None
  }

  /** The reference: the largest timestamp, not above `t`, under which the history wrote the user key. */
  ghost function Newest(cmp: Comparing, writes: seq<bytes>, user: bytes, t: nat): Option<nat>
    requires FullKeys(writes)
  {
    if writes == [] then None
    else
      var before, w := Newest(cmp, writes[..|writes| - 1], user, t), writes[|writes| - 1];
      if VersionOf(cmp, w, user) && TimeOf(w) <= t && (before.Some? ==> before.value < TimeOf(w)) then Some(TimeOf(w))
      else before
  }

  /** The same user key at the same timestamp. */
  ghost predicate SameKey(cmp: Comparing, a: bytes, b: bytes)
    requires FullKey(a) && FullKey(b)
  {
    cmp(ExtractUserKey(a), ExtractUserKey(b)) == 0 && TimeOf(a) == TimeOf(b)
  }

  ghost predicate Holds(cmp: Comparing, ks: seq<bytes>, k: bytes)
    requires FullKey(k) && FullKeys(ks)
  {
    exists i :: 0 <= i < |ks| && SameKey(cmp, ks[i], k)
  }

  lemma {:induction false} CompareChain(cmp: Comparing, a: bytes, b: bytes, c: bytes)
    requires Lawful(cmp) && FullKey(a) && FullKey(b) && FullKey(c)
    requires Compare(cmp, a, b) <= 0 && Compare(cmp, b, c) < 0
    ensures Compare(cmp, a, c) < 0
  {
    CompareLawful(cmp, c, a, b);
    CompareLawful(cmp, b, c, a);
  }

  lemma {:induction false} SortedCons(cmp: Comparing, k: bytes, ks: seq<bytes>)
    requires FullKey(k) && SortedKeys(cmp, ks) && forall x :: x in ks ==> FullKey(x) && Compare(cmp, k, x) < 0
    ensures SortedKeys(cmp, [k] + ks)
  {
  }

  lemma {:induction false} PutKeepsSorted(cmp: Comparing, ks: seq<bytes>, k: bytes)
    requires Lawful(cmp) && SortedKeys(cmp, ks) && FullKey(k)
    ensures SortedKeys(cmp, Put(cmp, ks, k))
  {
    if ks == [] {
    } else {
      var head, tail := ks[0], ks[1..];
      assert forall x :: x in tail ==> FullKey(x) && Compare(cmp, head, x) < 0;
      if Compare(cmp, head, k) < 0 {
        PutKeepsSorted(cmp, tail, k);
        SortedCons(cmp, head, Put(cmp, tail, k));
      } else {
        CompareLawful(cmp, head, k, k);
        forall x | x in tail ensures FullKey(x) && Compare(cmp, k, x) < 0 {
          CompareChain(cmp, k, head, x);
        }
        SortedCons(cmp, k, tail);
        if Compare(cmp, head, k) > 0 {
          SortedCons(cmp, k, ks);
        }
      }
    }
  }

  lemma {:induction false} SameKeySameVersions(cmp: Comparing, a: bytes, b: bytes, user: bytes)
    requires Lawful(cmp) && FullKey(a) && FullKey(b) && SameKey(cmp, a, b)
    ensures VersionOf(cmp, a, user) <==> VersionOf(cmp, b, user)
  {
    var x, y := ExtractUserKey(a), ExtractUserKey(b);
    assert Sign(cmp(x, y)) == -Sign(cmp(y, x));
    assert Sign(cmp(x, user)) == -Sign(cmp(user, x)) && Sign(cmp(y, user)) == -Sign(cmp(user, y));
  }

  lemma {:induction false} HoldsCons(cmp: Comparing, x: bytes, ks: seq<bytes>, k: bytes)
    requires FullKey(x) && FullKey(k) && FullKeys(ks)
    ensures Holds(cmp, [x] + ks, k) <==> SameKey(cmp, x, k) || Holds(cmp, ks, k)
  {
    if SameKey(cmp, x, k) {
      assert ([x] + ks)[0] == x;
    }
    if Holds(cmp, ks, k) {
      var i :| 0 <= i < |ks| && SameKey(cmp, ks[i], k);
      assert ([x] + ks)[i + 1] == ks[i];
    }
  }

  /** The store holds what it held and the key put, up to the comparison. */
  lemma {:induction false} PutHolds(cmp: Comparing, ks: seq<bytes>, k: bytes, w: bytes)
    requires Lawful(cmp) && FullKeys(ks) && FullKey(k) && FullKey(w)
    ensures Holds(cmp, Put(cmp, ks, k), w) <==> Holds(cmp, ks, w) || SameKey(cmp, k, w)
  {
    HoldsCons(cmp, k, [], w);
    if ks == [] {
      assert [k] + [] == [k];
    } else {
      var head, tail := ks[0], ks[1..];
      assert ks == [head] + tail;
      HoldsCons(cmp, head, tail, w);
      HoldsCons(cmp, k, ks, w);
      if Compare(cmp, head, k) < 0 {
        PutHolds(cmp, tail, k, w);
        HoldsCons(cmp, head, Put(cmp, tail, k), w);
      } else if Compare(cmp, head, k) == 0 {
        HoldsCons(cmp, k, tail, w);
        SameKeySameVersions(cmp, head, k, ExtractUserKey(w));
      }
    }
  }

  lemma {:induction false} HoldsLast(cmp: Comparing, ks: seq<bytes>, w: bytes)
    requires FullKeys(ks) && FullKey(w) && ks != []
    ensures Holds(cmp, ks, w) <==> Holds(cmp, ks[..|ks| - 1], w) || SameKey(cmp, ks[|ks| - 1], w)
  {
    var n := |ks| - 1;
    if Holds(cmp, ks, w) {
      var i :| 0 <= i < |ks| && SameKey(cmp, ks[i], w);
      assert i < n ==> ks[..n][i] == ks[i];
    }
    if Holds(cmp, ks[..n], w) {
      var i :| 0 <= i < n && SameKey(cmp, ks[..n][i], w);
      assert ks[i] == ks[..n][i];
    }
  }

  lemma {:induction false} StoreSorted(cmp: Comparing, writes: seq<bytes>)
    requires Lawful(cmp) && FullKeys(writes)
    ensures SortedKeys(cmp, Store(cmp, writes))
  {
    if writes != [] {
      var n := |writes| - 1;
      StoreSorted(cmp, writes[..n]);
      PutKeepsSorted(cmp, Store(cmp, writes[..n]), writes[n]);
    }
  }

  /** Whatever the order of the history, the store holds exactly what was written. */
  lemma {:induction false} StoreFaithful(cmp: Comparing, writes: seq<bytes>, w: bytes)
    requires Lawful(cmp) && FullKeys(writes) && FullKey(w)
    ensures Holds(cmp, Store(cmp, writes), w) <==> Holds(cmp, writes, w)
  {
    if writes != [] {
      var n := |writes| - 1;
      StoreFaithful(cmp, writes[..n], w);
      PutHolds(cmp, Store(cmp, writes[..n]), writes[n], w);
      HoldsLast(cmp, writes, w);
    }
  }

  ghost predicate VersionAt(cmp: Comparing, ks: seq<bytes>, user: bytes, t: nat)
    requires FullKeys(ks)
  {
    exists i :: 0 <= i < |ks| && VersionOf(cmp, ks[i], user) && TimeOf(ks[i]) == t
  }

  /** `best` is the largest timestamp, not above `t`, of a version in `ks`. */
  ghost predicate IsNewest(cmp: Comparing, ks: seq<bytes>, user: bytes, t: nat, best: Option<nat>)
    requires FullKeys(ks)
  {
    && (best.Some? ==> best.value <= t && VersionAt(cmp, ks, user, best.value))
    && (forall x: nat :: x <= t && VersionAt(cmp, ks, user, x) ==> best.Some? && x <= best.value)
  }

  lemma {:induction false} VersionLast(cmp: Comparing, ks: seq<bytes>, user: bytes, x: nat)
    requires FullKeys(ks) && ks != []
    ensures VersionAt(cmp, ks, user, x)
       <==> VersionAt(cmp, ks[..|ks| - 1], user, x) || (VersionOf(cmp, ks[|ks| - 1], user) && TimeOf(ks[|ks| - 1]) == x)
  {
    var n := |ks| - 1;
    if VersionAt(cmp, ks, user, x) {
      var i :| 0 <= i < |ks| && VersionOf(cmp, ks[i], user) && TimeOf(ks[i]) == x;
      assert i < n ==> ks[..n][i] == ks[i];
    }
    if VersionAt(cmp, ks[..n], user, x) {
      var i :| 0 <= i < n && VersionOf(cmp, ks[..n][i], user) && TimeOf(ks[..n][i]) == x;
      assert ks[i] == ks[..n][i];
    }
  }

  lemma {:induction false} NewestIsNewest(cmp: Comparing, writes: seq<bytes>, user: bytes, t: nat)
    requires FullKeys(writes)
    ensures IsNewest(cmp, writes, user, t, Newest(cmp, writes, user, t))
  {
    if writes != [] {
      NewestIsNewest(cmp, writes[..|writes| - 1], user, t);
      forall x: nat ensures VersionAt(cmp, writes, user, x)
          <==> VersionAt(cmp, writes[..|writes| - 1], user, x)
               || (VersionOf(cmp, writes[|writes| - 1], user) && TimeOf(writes[|writes| - 1]) == x) {
        VersionLast(cmp, writes, user, x);
      }
    }
  }

  /** Where the seek lands is the newest version, or there is none. */
  lemma {:induction false} SeekIsNewest(cmp: Comparing, ks: seq<bytes>, target: bytes)
    requires Lawful(cmp) && SortedKeys(cmp, ks) && FullKey(target)
    ensures IsNewest(cmp, ks, ExtractUserKey(target), TimeOf(target), Seek(cmp, ks, target))
  {
    NewestVisible(cmp, ks, target);
    var user := ExtractUserKey(target);
    forall x: nat | x <= TimeOf(target) && VersionAt(cmp, ks, user, x)
      ensures Seek(cmp, ks, target).Some? && x <= Seek(cmp, ks, target).value
    {
      var i :| 0 <= i < |ks| && VersionOf(cmp, ks[i], user) && TimeOf(ks[i]) == x;
    }
  }

  lemma {:induction false} NewestUnique(cmp: Comparing, ks: seq<bytes>, ks': seq<bytes>, user: bytes, t: nat, a: Option<nat>, b: Option<nat>)
    requires FullKeys(ks) && FullKeys(ks') && IsNewest(cmp, ks, user, t, a) && IsNewest(cmp, ks', user, t, b)
    requires forall x: nat :: VersionAt(cmp, ks, user, x) <==> VersionAt(cmp, ks', user, x)
    ensures a == b
  {
  }

  lemma {:induction false} VersionCarried(cmp: Comparing, ks: seq<bytes>, ks': seq<bytes>, user: bytes, t: nat)
    requires Lawful(cmp) && FullKeys(ks) && FullKeys(ks') && VersionAt(cmp, ks, user, t)
    requires forall w :: FullKey(w) && Holds(cmp, ks, w) ==> Holds(cmp, ks', w)
    ensures VersionAt(cmp, ks', user, t)
  {
    var i :| 0 <= i < |ks| && VersionOf(cmp, ks[i], user) && TimeOf(ks[i]) == t;
    var k := ks[i];
    CompareLawful(cmp, k, k, k);
    assert SameKey(cmp, ks[i], k);
    assert Holds(cmp, ks', k);
    var j :| 0 <= j < |ks'| && SameKey(cmp, ks'[j], k);
    SameKeySameVersions(cmp, ks'[j], k, user);
  }

  /** A version at a timestamp is stored exactly if it was written. */
  lemma {:induction false} VersionStored(cmp: Comparing, writes: seq<bytes>, user: bytes, t: nat)
    requires Lawful(cmp) && FullKeys(writes)
    ensures VersionAt(cmp, Store(cmp, writes), user, t) <==> VersionAt(cmp, writes, user, t)
  {
    forall w | FullKey(w) ensures Holds(cmp, Store(cmp, writes), w) <==> Holds(cmp, writes, w) {
      StoreFaithful(cmp, writes, w);
    }
    if VersionAt(cmp, writes, user, t) {
      VersionCarried(cmp, writes, Store(cmp, writes), user, t);
    }
    if VersionAt(cmp, Store(cmp, writes), user, t) {
      VersionCarried(cmp, Store(cmp, writes), writes, user, t);
    }
  }

  /**
   * Reading at a timestamp: after any history of writes in any order, the seek answers the newest write of the user
   * key that is not above the timestamp, or, by landing elsewhere, that there is none.
   */
  lemma {:induction false} SeekReadsNewest(cmp: Comparing, writes: seq<bytes>, target: bytes)
    requires Lawful(cmp) && FullKeys(writes) && FullKey(target)
    ensures Seek(cmp, Store(cmp, writes), target) == Newest(cmp, writes, ExtractUserKey(target), TimeOf(target))
  {
    var ks, user, t := Store(cmp, writes), ExtractUserKey(target), TimeOf(target);
    StoreSorted(cmp, writes);
    SeekIsNewest(cmp, ks, target);
    NewestIsNewest(cmp, writes, user, t);
    forall x: nat ensures VersionAt(cmp, ks, user, x) <==> VersionAt(cmp, writes, user, x) {
      VersionStored(cmp, writes, user, x);
    }
    NewestUnique(cmp, ks, writes, user, t, Seek(cmp, ks, target), Newest(cmp, writes, user, t));
  }

  // ----- the comparisons in use -----

  /** `bytes.Compare` */
  function BytesCompare(a: bytes, b: bytes): int {
    if a == [] then (if b == [] then 0 else -1)
    else if b == [] then 1
    else if a[0] != b[0] then (if a[0] < b[0] then -1 else 1)
    else BytesCompare(a[1..], b[1..])
  }

  /** The reversed comparison of the comparator test. */
  function ReverseCompare(a: bytes, b: bytes): int {
    BytesCompare(a, b) * -1
  }

  lemma {:induction false} BytesCompareAntisymmetric(a: bytes, b: bytes)
    ensures BytesCompare(a, b) == -BytesCompare(b, a)
    ensures BytesCompare(a, b) == 0 <==> a == b
  {
    if a == [] || b == [] {
    } else if a[0] == b[0] {
      BytesCompareAntisymmetric(a[1..], b[1..]);
      assert a == [a[0]] + a[1..] && b == [b[0]] + b[1..];
    }
  }

  /** The first byte that differs decides. */
  lemma {:induction false} BytesCompareAtDifference(a: bytes, b: bytes, j: nat)
    requires j < |a| && j < |b| && a[..j] == b[..j] && a[j] != b[j]
    ensures BytesCompare(a, b) == if a[j] < b[j] then -1 else 1
  {
    if j > 0 {
      assert a[..j][0] == b[..j][0];
      assert a[1..][..j - 1] == a[..j][1..] && b[1..][..j - 1] == b[..j][1..];
      BytesCompareAtDifference(a[1..], b[1..], j - 1);
    }
  }

  /** A proper prefix comes first. */
  lemma {:induction false} BytesComparePrefix(a: bytes, b: bytes)
    requires a < b
    ensures BytesCompare(a, b) == -1 && BytesCompare(b, a) == 1
  {
    if a != [] {
      BytesComparePrefix(a[1..], b[1..]);
    }
  }

  lemma {:induction false} BytesCompareTransitive(a: bytes, b: bytes, c: bytes)
    requires BytesCompare(a, b) <= 0 && BytesCompare(b, c) <= 0
    ensures BytesCompare(a, c) <= 0
  {
    if a == [] || b == [] || c == [] {
    } else if a[0] == b[0] && b[0] == c[0] {
      BytesCompareTransitive(a[1..], b[1..], c[1..]);
    }
  }

  /** Both user comparisons of the tests are lawful and tell all keys apart, so the results above hold of them outright. */
  lemma {:induction false} UserComparesLawful()
    ensures Lawful(BytesCompare) && forall x, y :: BytesCompare(x, y) == 0 <==> x == y
    ensures Lawful(ReverseCompare) && forall x, y :: ReverseCompare(x, y) == 0 <==> x == y
  {
    forall a, b ensures BytesCompare(a, b) == -BytesCompare(b, a) && (BytesCompare(a, b) == 0 <==> a == b) {
      BytesCompareAntisymmetric(a, b);
    }
    forall a, b, c | BytesCompare(a, b) <= 0 && BytesCompare(b, c) <= 0 ensures BytesCompare(a, c) <= 0 {
      BytesCompareTransitive(a, b, c);
    }
    forall a, b, c | ReverseCompare(a, b) <= 0 && ReverseCompare(b, c) <= 0 ensures ReverseCompare(a, c) <= 0 {
      BytesCompareAntisymmetric(a, b);
      BytesCompareAntisymmetric(b, c);
      BytesCompareAntisymmetric(a, c);
      BytesCompareTransitive(c, b, a);
    }
  }
}
