/**
 * Unsigned LEB128 (section 7.6 of DWARF version 5) limited to 64 bits, as read by Go's
 * `encoding/binary.Uvarint`, which `WriteBatchIterator.decodeVarint` calls.
 */
module Varint {
  import opened Bits

  const MAX_VARINT_LEN_64 := 10

  /** The number denoted by a sequence of 7-bit groups, least significant group first. */
  function LebValue(s: seq<byte>): nat {
    if s == [] then 0 else s[0] % 128 + 128 * LebValue(s[1..])
  }

  /** Every byte but the last carries the continuation bit. */
  ghost predicate Terminated(s: seq<byte>) {
    && s != []
    && s[|s| - 1] < 0x80
    && forall i :: 0 <= i < |s| - 1 ==> s[i] >= 0x80
  }

  /** The encodings that a 64-bit reader can represent. */
  ghost predicate Varint64(s: seq<byte>) {
    Terminated(s) && |s| <= MAX_VARINT_LEN_64 && LebValue(s) < TWO_64
  }

  /** No redundant zero group at the top. */
  predicate Minimal(s: seq<byte>) {
    |s| == 1 || (|s| > 1 && s[|s| - 1] != 0)
  }

  /** The shortest encoding. */
  function Encode(v: nat): seq<byte> {
    if v < 0x80 then [v] else [0x80 + v % 128] + Encode(v / 128)
  }

  /** How many leading bytes carry the continuation bit. */
  function Continuations(buf: seq<byte>): (k: nat)
    ensures k <= |buf|
    ensures forall i :: 0 <= i < k ==> buf[i] >= 0x80
    ensures k < |buf| ==> buf[k] < 0x80
  {
    if buf == [] || buf[0] < 0x80 then 0 else 1 + Continuations(buf[1..])
  }

  datatype Read = Read(value: nat, n: int)

  /** What the reader answers: `n > 0` bytes used, or `n == 0` (too short), or `n < 0` (overflow). */
  function ReadUvarint(buf: seq<byte>): (r: Read)
    ensures r.n <= |buf| && r.value < TWO_64
    ensures r.n <= 0 ==> r.value == 0
  {
    var k := Continuations(buf);
    if k >= MAX_VARINT_LEN_64 then
      if |buf| == MAX_VARINT_LEN_64 then Read(0, 0) else Read(0, -(MAX_VARINT_LEN_64 + 1))
    else if k == |buf| then Read(0, 0)
    else if k == MAX_VARINT_LEN_64 - 1 && buf[k] > 1 then Read(0, -MAX_VARINT_LEN_64)
    else LebRange(buf[..k + 1]); Read(LebValue(buf[..k + 1]), k + 1)
  }

  /** The shift-and-or loop of `binary.Uvarint`. */
  method Uvarint(buf: seq<byte>) returns (value: nat, n: int)
    ensures Read(value, n) == ReadUvarint(buf)
  {
    Pow2Values();
    var x, s := 0, 0;
    for i := 0 to |buf|
      invariant i <= 10 && s == 7 * i
      invariant forall j :: 0 <= j < i ==> buf[j] >= 0x80
      invariant i <= 9 ==> x == LebValue(buf[..i])
    {
      var b := buf[i];
      if i == MAX_VARINT_LEN_64 {
        ContinuationsAtLeast(buf, i);
        return 0, -(i + 1);
      }
      assert buf[..i + 1] == buf[..i] + [b];
      if b < 0x80 {
        ContinuationsIs(buf, i);
        if i == MAX_VARINT_LEN_64 - 1 && b > 1 {
          return 0, -(i + 1);
        }
        OrGroup(buf[..i], b, b);
        return Or(x, Shl(b, s)), i + 1;
      }
      if i < 9 {
        AndMask(b, 7);
        OrGroup(buf[..i], b, And(b, 0x7f));
      }
      x := Or(x, Shl(And(b, 0x7f), s));
      s := s + 7;
    }
    ContinuationsAtLeast(buf, |buf|);
    return 0, 0;
  }

  lemma {:induction false} ContinuationsAtLeast(buf: seq<byte>, k: nat)
    requires k <= |buf| && forall j :: 0 <= j < k ==> buf[j] >= 0x80
    ensures Continuations(buf) >= k
  {
    if k > 0 {
      ContinuationsAtLeast(buf[1..], k - 1);
    }
  }

  lemma {:induction false} ContinuationsIs(buf: seq<byte>, k: nat)
    requires k < |buf| && buf[k] < 0x80 && forall j :: 0 <= j < k ==> buf[j] >= 0x80
    ensures Continuations(buf) == k
  {
    ContinuationsAtLeast(buf, k);
  }

  /** A further group weighs 128 to the number of groups before it. */
  lemma {:induction false} LebAppend(s: seq<byte>, b: byte)
    ensures LebValue(s + [b]) == LebValue(s) + b % 128 * Pow2(7 * |s|)
  {
    if s == [] {
      assert [b][1..] == [];
      assert LebValue([b]) == b % 128 + 128 * LebValue([]);
    } else {
      var t := s[1..];
      assert (s + [b])[1..] == t + [b];
      LebAppend(t, b);
      Pow2Values();
      Pow2Add(7, 7 * |t|);
      var p := Pow2(7 * |t|);
      assert 128 * (b % 128 * p) == b % 128 * (128 * p);
    }
  }

  lemma {:induction false} LebBound(s: seq<byte>)
    ensures LebValue(s) < Pow2(7 * |s|)
  {
    if s == [] {
    } else {
      LebBound(s[1..]);
      Pow2Values();
      Pow2Add(7, 7 * |s[1..]|);
    }
  }

  lemma {:induction false} OrShifted(x: nat, g: nat, k: nat)
    requires x < Pow2(k) && g * Pow2(k) < TWO_64
    ensures Or(x, Shl(g, k)) == x + g * Pow2(k)
  {
    OrDisjoint(x, g, k);
    SmallMod(g * Pow2(k), TWO_64);
  }

  lemma {:induction false} SmallMod(a: nat, m: nat)
    requires a < m
    ensures a % m == a
  {
  }

  lemma {:induction false} GroupFits(k: nat, g: nat)
    requires k <= 9 && g < 128 && (k == 9 ==> g <= 1)
    ensures g * Pow2(7 * k) < TWO_64
  {
    Pow2Values();
    var p := Pow2(7 * k);
    if k == 9 {
      MulMonotone(g, 1, p);
    } else {
      MulMonotone(g, 127, p);
      Pow2Add(7, 7 * k);
      Pow2Monotone(7 + 7 * k, 63);
    }
  }

  /** Or-ing a shifted group into the word adds it, as long as nothing reaches past bit 63. */
  lemma {:induction false} OrGroup(s: seq<byte>, b: byte, g: nat)
    requires |s| <= 9 && g == b % 128 && (|s| == 9 ==> g <= 1)
    ensures Or(LebValue(s), Shl(g, 7 * |s|)) == LebValue(s + [b])
  {
    LebBound(s);
    LebAppend(s, b);
    GroupFits(|s|, g);
    OrShifted(LebValue(s), g, 7 * |s|);
  }

  /** Within ten bytes, exactly a tenth byte above 1 overflows 64 bits. */
  lemma {:induction false} LebRange(s: seq<byte>)
    requires s != [] && s[|s| - 1] < 0x80 && |s| <= MAX_VARINT_LEN_64
    ensures LebValue(s) < TWO_64 <==> |s| < MAX_VARINT_LEN_64 || s[9] <= 1
  {
    Pow2Values();
    LebBound(s);
    if |s| < MAX_VARINT_LEN_64 {
      Pow2Monotone(7 * |s|, 63);
    } else {
      LebBound(s[..9]);
      LebAppend(s[..9], s[9]);
      assert s[..9] + [s[9]] == s;
    }
  }

  // ----- the reader accepts exactly the terminated 64-bit encodings -----

  /** A 64-bit encoding is read back whatever follows it. */
  lemma {:induction false} ReadsVarint(s: seq<byte>, rest: seq<byte>)
    requires Varint64(s)
    ensures ReadUvarint(s + rest) == Read(LebValue(s), |s|)
  {
    LebRange(s);
    var k := |s| - 1;
    assert forall j :: 0 <= j < |s| ==> (s + rest)[j] == s[j];
    ContinuationsIs(s + rest, k);
    assert (s + rest)[..k + 1] == s;
  }

  /** Acceptance, both ways: the value and the bytes used are those of a 64-bit encoding that starts the buffer. */
  lemma {:induction false} AcceptsExactly(buf: seq<byte>, v: nat, n: nat)
    ensures ReadUvarint(buf) == Read(v, n) && n > 0
       <==> 0 < n <= |buf| && Varint64(buf[..n]) && LebValue(buf[..n]) == v
  {
    var r := ReadUvarint(buf);
    if r.n > 0 {
      LebRange(buf[..r.n]);
      assert Varint64(buf[..r.n]);
    }
    if 0 < n <= |buf| && Varint64(buf[..n]) {
      ReadsVarint(buf[..n], buf[n..]);
      assert buf[..n] + buf[n..] == buf;
    }
  }

  /** "Too short" is answered exactly on unterminated buffers of at most ten bytes. */
  lemma {:induction false} ShortExactly(buf: seq<byte>)
    ensures ReadUvarint(buf).n == 0 <==> |buf| <= MAX_VARINT_LEN_64 && forall i :: 0 <= i < |buf| ==> buf[i] >= 0x80
  {
    if forall i :: 0 <= i < |buf| ==> buf[i] >= 0x80 {
      ContinuationsAtLeast(buf, |buf|);
    } else {
      var i :| 0 <= i < |buf| && buf[i] < 0x80;
      assert Continuations(buf) <= i;
    }
  }

  /** "Overflow" is answered exactly when the first ten bytes neither end nor fit in 64 bits. */
  lemma {:induction false} OverflowExactly(buf: seq<byte>)
    ensures ReadUvarint(buf).n < 0
       <==> && |buf| >= MAX_VARINT_LEN_64
            && (forall i :: 0 <= i < 9 ==> buf[i] >= 0x80)
            && (1 < buf[9] < 0x80 || (buf[9] >= 0x80 && |buf| > MAX_VARINT_LEN_64))
  {
    if |buf| >= MAX_VARINT_LEN_64 && forall i :: 0 <= i < 9 ==> buf[i] >= 0x80 {
      ContinuationsAtLeast(buf, 9);
      if buf[9] >= 0x80 {
        ContinuationsAtLeast(buf, 10);
      } else {
        ContinuationsIs(buf, 9);
      }
    }
  }

  // ----- the shortest encoding -----

  /** `s` is an encoding of `v` without a zero group on top, save for 0 itself. */
  ghost predicate Spells(s: seq<byte>, v: nat) {
    && Terminated(s) && Minimal(s) && LebValue(s) == v
    && (v > 0 ==> s[|s| - 1] != 0)
  }

  lemma {:induction false} GroupBefore(b: byte, tail: seq<byte>, v: nat)
    requires b >= 0x80 && v > 0 && Spells(tail, v)
    ensures Spells([b] + tail, b - 0x80 + 128 * v)
  {
    var s := [b] + tail;
    assert s[1..] == tail;
    assert forall i :: 0 < i < |s| ==> s[i] == tail[i - 1];
  }

  lemma {:induction false} EncodeIsMinimal(v: nat)
    ensures Spells(Encode(v), v)
  {
    if v < 0x80 {
      OneGroup([v]);
    } else {
      EncodeIsMinimal(v / 128);
      GroupBefore(0x80 + v % 128, Encode(v / 128), v / 128);
    }
  }

  lemma {:induction false} OneGroup(s: seq<byte>)
    requires |s| == 1 && s[0] < 0x80
    ensures LebValue(s) == s[0] && Encode(LebValue(s)) == s
  {
    assert s[1..] == [];
  }

  lemma {:induction false} ManyGroups(s: seq<byte>)
    requires Terminated(s) && |s| > 1
    ensures Terminated(s[1..]) && s[0] >= 0x80 && s == [s[0]] + s[1..]
    ensures LebValue(s) == s[0] - 0x80 + 128 * LebValue(s[1..])
    ensures LebValue(s) >= 0x80 ==> Encode(LebValue(s)) == [s[0]] + Encode(LebValue(s[1..]))
  {
    var t := s[1..];
    assert forall i :: 0 <= i < |t| ==> t[i] == s[i + 1];
    var v := LebValue(s);
    assert v / 128 == LebValue(t) && v % 128 == s[0] - 0x80;
  }

  /** Any terminated encoding of a number is at least as long as the shortest one, and as long only if it is the shortest one. */
  lemma {:induction false} EncodeIsShortest(s: seq<byte>)
    requires Terminated(s)
    ensures |Encode(LebValue(s))| <= |s|
    ensures Minimal(s) <==> s == Encode(LebValue(s))
    ensures Minimal(s) <==> |s| == |Encode(LebValue(s))|
  {
    if |s| == 1 {
      OneGroup(s);
    } else {
      var t := s[1..];
      ManyGroups(s);
      EncodeIsShortest(t);
      assert t[|t| - 1] == s[|s| - 1];
      if |t| == 1 {
        OneGroup(t);
      }
      if LebValue(s) < 0x80 {
        assert LebValue(t) == 0 && Encode(0) == [0];
      } else {
        assert LebValue(t) != 0;
        assert Encode(LebValue(s))[1..] == Encode(LebValue(t));
        assert Encode(0) == [0];
      }
    }
  }

  /** Every 64-bit word has a shortest encoding of at most ten bytes. */
  lemma {:induction false} EncodeFits(v: nat)
    requires v < TWO_64
    ensures Varint64(Encode(v))
  {
    EncodeIsMinimal(v);
    Pow2Values();
    Pow2Monotone(64, 70);
    EncodeLength(v, MAX_VARINT_LEN_64);
  }

  lemma {:induction false} EncodeLength(v: nat, k: nat)
    requires k > 0 && v < Pow2(7 * k)
    ensures |Encode(v)| <= k
  {
    Pow2Values();
    if v < 0x80 {
    } else {
      Pow2Add(7, 7 * (k - 1));
      EncodeLength(v / 128, k - 1);
    }
  }
}
