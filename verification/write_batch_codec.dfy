/** Whole batches: the encoder fixed by the grammar, and how it and the iterator undo each other. */
module WriteBatchCodec {
  import opened Bits
  import opened Runtime
  import opened Varint
  import opened Records
  import opened WriteBatchGrammar

  // ----- draining a buffer of valid records -----

  ghost function Last(rec: Record, rs: seq<Record>): Record {
    if rs == [] then rec else rs[|rs| - 1]
  }

  lemma {:induction false} LastCons(rec: Record, r: Record, rs: seq<Record>)
    ensures Last(rec, [r] + rs) == Last(r, rs)
  {
  }

  lemma {:induction false} Associative<T>(a: seq<T>, b: seq<T>, c: seq<T>)
    ensures a + (b + c) == a + b + c
  {
  }

  lemma {:induction false} MeaningsCons(ws: seq<Wire>)
    requires ws != [] && ValidWires(ws)
    ensures ValidWires(ws[1..]) && Meanings(ws) == [Meaning(ws[0])] + Meanings(ws[1..])
  {
  }

  lemma {:induction false} DrainOne(w: Wire, rest: seq<byte>, rec: Record)
    requires ValidWire(w)
    ensures Drain(Iter(Flatten(w) + rest, rec, NoError)).0 == [Meaning(w)] + Drain(Iter(rest, Meaning(w), NoError)).0
    ensures Drain(Iter(Flatten(w) + rest, rec, NoError)).1 == Drain(Iter(rest, Meaning(w), NoError)).1
  {
    StepOnWire(w, rest, rec);
    DrainMore(Iter(Flatten(w) + rest, rec, NoError), Iter(rest, Meaning(w), NoError));
  }

  /** Draining past valid records yields them and goes on with what follows. */
  lemma {:induction false} DrainPast(ws: seq<Wire>, rest: seq<byte>, rec: Record)
    requires ValidWires(ws)
    ensures Drain(Iter(FlattenAll(ws) + rest, rec, NoError)).0
         == Meanings(ws) + Drain(Iter(rest, Last(rec, Meanings(ws)), NoError)).0
    ensures Drain(Iter(FlattenAll(ws) + rest, rec, NoError)).1
         == Drain(Iter(rest, Last(rec, Meanings(ws)), NoError)).1
  {
    if ws == [] {
      assert FlattenAll(ws) + rest == rest;
    } else {
      var w, tail := ws[0], ws[1..];
      assert FlattenAll(ws) + rest == Flatten(w) + (FlattenAll(tail) + rest);
      DrainOne(w, FlattenAll(tail) + rest, rec);
      MeaningsCons(ws);
      DrainPast(tail, rest, Meaning(w));
      LastCons(rec, Meaning(w), Meanings(tail));
      Associative([Meaning(w)], Meanings(tail), Drain(Iter(rest, Last(rec, Meanings(ws)), NoError)).0);
    }
  }

  lemma {:induction false} NoRecordHere(it: Iter)
    requires it.err == NoError && (Step(it).Returned? ==> !Step(it).more)
    ensures forall w, more :: ValidWire(w) ==> it.data != Flatten(w) + more
  {
    forall w, more | ValidWire(w) ensures it.data != Flatten(w) + more {
      if it.data == Flatten(w) + more {
        StepOnWire(w, more, it.record);
      }
    }
  }

  lemma {:induction false} FlattenCons(w: Wire, tail: seq<Wire>, rest: seq<byte>)
    ensures FlattenAll([w] + tail) + rest == Flatten(w) + (FlattenAll(tail) + rest)
    ensures ([w] + tail)[1..] == tail
  {
    assert ([w] + tail)[1..] == tail;
    Associative(Flatten(w), FlattenAll(tail), rest);
  }

  /**
   * Every buffer, damaged or not, is a sequence of valid records and a rest at which no valid record starts; a drain
   * yields exactly those records and ends as the call at that rest ends.
   */
  lemma {:induction false} DrainSplits(it: Iter) returns (ws: seq<Wire>, rest: seq<byte>)
    requires it.err == NoError
    ensures ValidWires(ws) && it.data == FlattenAll(ws) + rest && Drain(it).0 == Meanings(ws)
    ensures Drain(it).1 == Step(Iter(rest, Last(it.record, Meanings(ws)), NoError))
    ensures forall w, more :: ValidWire(w) ==> rest != Flatten(w) + more
    decreases |it.data|
  {
    var o := Step(it);
    StepShrinks(it);
    if o.Returned? && o.more {
      DrainMore(it, o.iter);
      var w := StepSound(it);
      var tail;
      tail, rest := DrainSplits(o.iter);
      ws := [w] + tail;
      FlattenCons(w, tail, rest);
      MeaningsCons(ws);
      LastCons(it.record, Meaning(w), Meanings(tail));
    } else {
      DrainDone(it);
      NoRecordHere(it);
      ws, rest := [], it.data;
    }
  }

  /** A drain that ends without error has eaten a sequence of valid records and nothing else. */
  lemma {:induction false} DrainSound(it: Iter) returns (ws: seq<Wire>)
    requires it.err == NoError && Drain(it).1.Returned? && Drain(it).1.iter.err == NoError
    ensures ValidWires(ws) && it.data == FlattenAll(ws) && Drain(it).0 == Meanings(ws)
    ensures Drain(it).1.iter.data == []
  {
    var rest;
    ws, rest := DrainSplits(it);
    var last := Iter(rest, Last(it.record, Meanings(ws)), NoError);
    if rest != [] {
      SilentStop(last);
      if Step(last).Returned? && Step(last).more {
        var w := StepSound(last);
      }
    } else {
      assert FlattenAll(ws) + rest == FlattenAll(ws);
    }
  }

  /** On a non-empty buffer `Next` does not return false without an error. */
  lemma {:induction false} SilentStop(it: Iter)
    requires it.err == NoError && it.data != []
    ensures Step(it).Returned? && !Step(it).more ==> Step(it).iter.err != NoError
  {
    if LayoutOf(it.data[0]).Some? {
      var l := LayoutOf(it.data[0]).value;
      var a := ReadCF(l.cf, Iter(it.data[1..], Record(0, Nil, Nil, it.data[0]), NoError));
      var b := ReadKey(l.key, a);
      assert Step(it) == ReadFields(l, a);
    }
  }

  /** Every batch has at most one reading: valid records are prefix-free, down to the last varint. */
  lemma {:induction false} WireUnique(w: Wire, x: seq<byte>, w': Wire, x': seq<byte>)
    requires ValidWire(w) && ValidWire(w') && Flatten(w) + x == Flatten(w') + x'
    ensures w == w' && x == x'
  {
    FlattenAssociates(w, x);
    FlattenAssociates(w', x');
    var y, y' := w.valueLen + w.value + x, w'.valueLen + w'.value + x';
    var z, z' := w.keyLen + w.key + y, w'.keyLen + w'.key + y';
    assert [w.tag] + (w.cf + z) == [w'.tag] + (w'.cf + z');
    assert w.tag == ([w.tag] + (w.cf + z))[0] == ([w'.tag] + (w'.cf + z'))[0] == w'.tag;
    assert w.cf + z == ([w.tag] + (w.cf + z))[1..] == ([w'.tag] + (w'.cf + z'))[1..] == w'.cf + z';
    if LayoutOf(w.tag).value.cf {
      VarintUnique(w.cf, z, w'.cf, z');
    } else {
      assert w.cf + z == z && w'.cf + z' == z';
    }
    FieldUnique(LayoutOf(w.tag).value.key, w.keyLen, w.key, y, w'.keyLen, w'.key, y');
    FieldUnique(LayoutOf(w.tag).value.value, w.valueLen, w.value, x, w'.valueLen, w'.value, x');
  }

  lemma {:induction false} VarintUnique(s: seq<byte>, x: seq<byte>, s': seq<byte>, x': seq<byte>)
    requires Varint64(s) && Varint64(s') && s + x == s' + x'
    ensures s == s' && x == x'
  {
    ReadsVarint(s, x);
    ReadsVarint(s', x');
    assert s == (s + x)[..|s|] && x == (s + x)[|s|..];
    assert s' == (s' + x')[..|s|] && x' == (s' + x')[|s|..];
  }

  lemma {:induction false} FieldUnique(p: bool, n: seq<byte>, b: seq<byte>, x: seq<byte>, n': seq<byte>, b': seq<byte>, x': seq<byte>)
    requires ValidField(p, n, b) && ValidField(p, n', b') && n + b + x == n' + b' + x'
    ensures n == n' && b == b' && x == x'
  {
    if p {
      assert n + b + x == n + (b + x) && n' + b' + x' == n' + (b' + x');
      VarintUnique(n, b + x, n', b' + x');
      assert b == (b + x)[..|b|] && x == (b + x)[|b|..];
      assert b' == (b' + x')[..|b|] && x' == (b' + x')[|b|..];
    } else {
      assert n + b + x == x && n' + b' + x' == x';
    }
  }

  lemma {:induction false} WiresUnique(ws: seq<Wire>, ws': seq<Wire>)
    requires ValidWires(ws) && ValidWires(ws') && FlattenAll(ws) == FlattenAll(ws')
    ensures ws == ws'
  {
    if ws == [] || ws' == [] {
    } else {
      WireUnique(ws[0], FlattenAll(ws[1..]), ws'[0], FlattenAll(ws'[1..]));
      WiresUnique(ws[1..], ws'[1..]);
      assert ws == [ws[0]] + ws[1..] && ws' == [ws'[0]] + ws'[1..];
    }
  }

  // ----- the encoder -----

  ghost predicate FitsField(present: bool, s: ByteSlice) {
    if present then s.Bytes? && |s.bytes| < TWO_63 else s == Nil
  }

  /** A record that a batch can hold; the fields its tag lacks are at their reset values. */
  ghost predicate WellFormed(r: Record) {
    && LayoutOf(r.tag).Some?
    && var l := LayoutOf(r.tag).value;
    && (if l.cf then -TWO_63 <= r.cf < TWO_63 else r.cf == 0)
    && FitsField(l.key, r.key)
    && FitsField(l.value, r.value)
  }

  ghost predicate AllWellFormed(rs: seq<Record>) {
    forall i :: 0 <= i < |rs| ==> WellFormed(rs[i])
  }

  function LengthOf(s: ByteSlice): seq<byte> {
    if s.Nil? then [] else Varint.Encode(|s.bytes|)
  }

  function BodyOf(s: ByteSlice): seq<byte> {
    if s.Nil? then [] else s.bytes
  }

  /** The wire form of a record with every varint at its shortest. */
  function WireOf(r: Record): Wire
    requires WellFormed(r)
  {
    Wire(r.tag, if LayoutOf(r.tag).value.cf then Varint.Encode(ToUint64(r.cf)) else [],
         LengthOf(r.key), BodyOf(r.key), LengthOf(r.value), BodyOf(r.value))
  }

  function EncodeAll(rs: seq<Record>): seq<byte>
    requires AllWellFormed(rs)
  {
    if rs == [] then [] else Flatten(WireOf(rs[0])) + EncodeAll(rs[1..])
  }

  lemma {:induction false} FieldValid(present: bool, s: ByteSlice)
    requires FitsField(present, s)
    ensures ValidField(present, LengthOf(s), BodyOf(s)) && Field(present, BodyOf(s)) == s
  {
    if present {
      EncodeFits(|s.bytes|);
      EncodeIsMinimal(|s.bytes|);
    }
  }

  lemma {:induction false} WireOfValid(r: Record)
    requires WellFormed(r)
    ensures ValidWire(WireOf(r)) && Meaning(WireOf(r)) == r
  {
    var l := LayoutOf(r.tag).value;
    if l.cf {
      EncodeFits(ToUint64(r.cf));
      EncodeIsMinimal(ToUint64(r.cf));
    }
    FieldValid(l.key, r.key);
    FieldValid(l.value, r.value);
  }

  ghost function WiresOf(rs: seq<Record>): (ws: seq<Wire>)
    requires AllWellFormed(rs)
    ensures |ws| == |rs| && forall i :: 0 <= i < |rs| ==> ws[i] == WireOf(rs[i])
  {
    seq(|rs|, i requires 0 <= i < |rs| => WireOf(rs[i]))
  }

  lemma {:induction false} EncodeAllIsFlat(rs: seq<Record>)
    requires AllWellFormed(rs)
    ensures EncodeAll(rs) == FlattenAll(WiresOf(rs))
    ensures ValidWires(WiresOf(rs)) && Meanings(WiresOf(rs)) == rs
  {
    if rs == [] {
    } else {
      EncodeAllIsFlat(rs[1..]);
      assert WiresOf(rs)[1..] == WiresOf(rs[1..]);
      forall i | 0 <= i < |rs|
        ensures ValidWire(WiresOf(rs)[i]) && Meaning(WiresOf(rs)[i]) == rs[i]
      {
        WireOfValid(rs[i]);
      }
    }
  }

  // ----- round trip -----

  /** Behind any 12-byte header, `Next` yields exactly the encoded records in order, then false with no error and no bytes left. */
  lemma {:induction false} RoundTrip(header: seq<byte>, rs: seq<Record>)
    requires |header| == 12 && AllWellFormed(rs)
    ensures Drain(Start(header + EncodeAll(rs)))
         == (rs, Returned(false, Iter([], Last(Start([]).record, rs), NoError)))
  {
    EncodeAllIsFlat(rs);
    var ws := WiresOf(rs);
    assert (header + EncodeAll(rs))[12..] == EncodeAll(rs) == FlattenAll(ws) + [];
    DrainPast(ws, [], Start([]).record);
    assert rs + [] == rs;
  }

  /** Different sequences of records have different encodings, and none is a prefix of another at a record boundary. */
  lemma {:induction false} EncodingInjective(rs: seq<Record>, rs': seq<Record>)
    requires AllWellFormed(rs) && AllWellFormed(rs') && EncodeAll(rs) == EncodeAll(rs')
    ensures rs == rs'
  {
    var header := seq(12, _ => 0);
    RoundTrip(header, rs);
    RoundTrip(header, rs');
  }

  /** No record's encoding is a proper prefix of another's. */
  lemma {:induction false} EncodingPrefixFree(r: Record, r': Record, more: seq<byte>)
    requires WellFormed(r) && WellFormed(r')
    requires EncodeAll([r]) + more == EncodeAll([r'])
    ensures r == r' && more == []
  {
    assert EncodeAll([r]) == Flatten(WireOf(r)) && EncodeAll([r']) == Flatten(WireOf(r')) + [];
    WireOfValid(r);
    WireOfValid(r');
    WireUnique(WireOf(r), more, WireOf(r'), []);
  }

  /** A batch shorter than its header has no records. */
  lemma {:induction false} ShortHeader(batch: seq<byte>)
    requires |batch| < 12
    ensures Drain(Start(batch)).0 == [] && Drain(Start(batch)).1 == Returned(false, Start(batch))
  {
  }

  // ----- canonical form -----

  ghost predicate MinimalVarint(present: bool, s: seq<byte>) {
    present ==> Minimal(s)
  }

  /** No varint of the record is longer than it has to be. */
  ghost predicate MinimalWire(w: Wire)
    requires ValidWire(w)
  {
    var l := LayoutOf(w.tag).value;
    MinimalVarint(l.cf, w.cf) && MinimalVarint(l.key, w.keyLen) && MinimalVarint(l.value, w.valueLen)
  }

  /** Every varint in an accepted buffer is minimal (the buffer has one reading only, see `WiresUnique`). */
  ghost predicate MinimalBuffer(data: seq<byte>) {
    forall ws, i :: ValidWires(ws) && data == FlattenAll(ws) && 0 <= i < |ws| ==> MinimalWire(ws[i])
  }

  lemma {:induction false} MeaningWellFormed(w: Wire)
    requires ValidWire(w)
    ensures WellFormed(Meaning(w))
  {
  }

  lemma {:induction false} FieldCanon(present: bool, len: seq<byte>, body: seq<byte>)
    requires ValidField(present, len, body)
    ensures BodyOf(Field(present, body)) == body
    ensures |LengthOf(Field(present, body))| <= |len|
    ensures MinimalVarint(present, len) <==> LengthOf(Field(present, body)) == len
    ensures MinimalVarint(present, len) <==> |LengthOf(Field(present, body))| == |len|
  {
    if present {
      EncodeIsShortest(len);
    }
  }

  lemma {:induction false} WireCanon(w: Wire)
    requires ValidWire(w) && WellFormed(Meaning(w))
    ensures |Flatten(WireOf(Meaning(w)))| <= |Flatten(w)|
    ensures MinimalWire(w) ==> WireOf(Meaning(w)) == w
    ensures !MinimalWire(w) ==> |Flatten(WireOf(Meaning(w)))| < |Flatten(w)|
  {
    var l := LayoutOf(w.tag).value;
    if l.cf {
      EncodeIsShortest(w.cf);
      assert ToUint64(ToInt64(LebValue(w.cf))) == LebValue(w.cf);
    }
    FieldCanon(l.key, w.keyLen, w.key);
    FieldCanon(l.value, w.valueLen, w.value);
  }

  ghost predicate MinimalWires(ws: seq<Wire>)
    requires ValidWires(ws)
  {
    forall i :: 0 <= i < |ws| ==> MinimalWire(ws[i])
  }

  lemma {:induction false} MinimalWiresCons(ws: seq<Wire>)
    requires ws != [] && ValidWires(ws)
    ensures MinimalWires(ws) <==> MinimalWire(ws[0]) && MinimalWires(ws[1..])
  {
    forall i | 0 < i < |ws| && MinimalWires(ws[1..]) ensures MinimalWire(ws[i]) {
      assert ws[1..][i - 1] == ws[i];
    }
  }

  lemma {:induction false} EncodeCons(r: Record, rs: seq<Record>)
    requires WellFormed(r) && AllWellFormed(rs)
    ensures AllWellFormed([r] + rs) && EncodeAll([r] + rs) == Flatten(WireOf(r)) + EncodeAll(rs)
  {
    assert ([r] + rs)[1..] == rs;
  }

  lemma {:induction false} WiresCanon(ws: seq<Wire>)
    requires ValidWires(ws)
    ensures AllWellFormed(Meanings(ws))
    ensures |EncodeAll(Meanings(ws))| <= |FlattenAll(ws)|
    ensures MinimalWires(ws) ==> EncodeAll(Meanings(ws)) == FlattenAll(ws)
    ensures !MinimalWires(ws) ==> |EncodeAll(Meanings(ws))| < |FlattenAll(ws)|
  {
    if ws == [] {
    } else {
      WiresCanon(ws[1..]);
      MeaningWellFormed(ws[0]);
      WireCanon(ws[0]);
      MeaningsCons(ws);
      MinimalWiresCons(ws);
      EncodeCons(Meaning(ws[0]), Meanings(ws[1..]));
    }
  }

  /**
   * Re-encoding what any accepted buffer decodes to gives a buffer that is no longer, decodes to the same records,
   * and is the original exactly when every varint of the original was minimal.
   */
  lemma {:induction false} Canonicalisation(it: Iter)
    requires it.err == NoError && Drain(it).1.Returned? && Drain(it).1.iter.err == NoError
    ensures var rs := Drain(it).0;
            && AllWellFormed(rs)
            && |EncodeAll(rs)| <= |it.data|
            && Drain(it.(data := EncodeAll(rs))) == Drain(it)
            && (EncodeAll(rs) == it.data <==> MinimalBuffer(it.data))
  {
    var ws := DrainSound(it);
    WiresCanon(ws);
    var rs := Drain(it).0;
    EncodeAllIsFlat(rs);
    DrainPast(WiresOf(rs), [], it.record);
    DrainPast(ws, [], it.record);
    assert FlattenAll(WiresOf(rs)) + [] == EncodeAll(rs) && FlattenAll(ws) + [] == it.data;
    if MinimalWires(ws) {
      forall ws', i | ValidWires(ws') && it.data == FlattenAll(ws') && 0 <= i < |ws'|
        ensures MinimalWire(ws'[i])
      {
        WiresUnique(ws, ws');
      }
    }
  }

  // ----- truncation -----

  lemma {:induction false} TakeConcat<T>(a: seq<T>, b: seq<T>, p: nat)
    requires p <= |a| + |b|
    ensures p <= |a| ==> (a + b)[..p] == a[..p]
    ensures p >= |a| ==> (a + b)[..p] == a + b[..p - |a|]
  {
  }

  lemma {:induction false} ShortVarint(s: seq<byte>, p: nat)
    requires Varint64(s) && p < |s|
    ensures FaultOf(s[..p], false) == FaultOf(s[..p], true) == Some(Short)
  {
    ShortExactly(s[..p]);
  }

  /** A length-prefixed field cut anywhere inside is short. */
  lemma {:induction false} ShortField(len: seq<byte>, body: seq<byte>, p: nat)
    requires ValidField(true, len, body) && p < |len + body|
    ensures FaultOf((len + body)[..p], true) == Some(Short)
  {
    TakeConcat(len, body, p);
    if p < |len| {
      ShortVarint(len, p);
    } else {
      ReadsVarint(len, body[..p - |len|]);
    }
  }

  lemma {:induction false} KeyDue(w: Wire, tail: seq<byte>)
    requires ValidWire(w) && LayoutOf(w.tag).value.key
    ensures Due([w.tag] + (w.cf + tail), tail, true)
  {
    var data := [w.tag] + (w.cf + tail);
    assert data[0] == w.tag;
    assert ValidCF(LayoutOf(w.tag).value.cf, w.cf) && data == [data[0]] + (w.cf + tail);
  }

  lemma {:induction false} ValueDue(w: Wire, tail: seq<byte>)
    requires ValidWire(w) && LayoutOf(w.tag).value.value
    ensures Due([w.tag] + (w.cf + (w.keyLen + w.key + tail)), tail, true)
  {
    var data := [w.tag] + (w.cf + (w.keyLen + w.key + tail));
    assert data[0] == w.tag;
    assert ValidCF(LayoutOf(w.tag).value.cf, w.cf) && ValidField(LayoutOf(w.tag).value.key, w.keyLen, w.key)
        && data == [data[0]] + (w.cf + (w.keyLen + w.key + tail));
  }

  /** The key and value fields cut strictly inside. */
  lemma {:induction false} CutFields(w: Wire, q: nat) returns (tail: seq<byte>)
    requires ValidWire(w) && q < |w.keyLen + w.key + (w.valueLen + w.value)|
    ensures Due([w.tag] + (w.cf + (w.keyLen + w.key + (w.valueLen + w.value))[..q]), tail, true)
    ensures FaultOf(tail, true) == Some(Short)
  {
    var key, value := w.keyLen + w.key, w.valueLen + w.value;
    TakeConcat(key, value, q);
    if q < |key| {
      tail := key[..q];
      ShortField(w.keyLen, w.key, q);
      KeyDue(w, tail);
    } else {
      tail := value[..q - |key|];
      ShortField(w.valueLen, w.value, q - |key|);
      ValueDue(w, tail);
    }
  }

  /** A record cut strictly inside leaves a varint due that is short, or that announces more than is left. */
  lemma {:induction false} CutIsFault(w: Wire, p: nat) returns (tail: seq<byte>, isLength: bool)
    requires ValidWire(w) && 0 < p < |Flatten(w)|
    ensures Due(Flatten(w)[..p], tail, isLength) && FaultOf(tail, isLength) == Some(Short)
  {
    var fields := w.keyLen + w.key + (w.valueLen + w.value);
    TakeConcat([w.tag], w.cf + fields, p);
    TakeConcat(w.cf, fields, p - 1);
    if p - 1 < |w.cf| {
      tail, isLength := w.cf[..p - 1], false;
      ShortVarint(w.cf, p - 1);
    } else {
      tail := CutFields(w, p - 1 - |w.cf|);
      isLength := true;
    }
  }

  /** A record cut strictly inside makes `Next` return false with the short-buffer error. */
  lemma {:induction false} CutInside(w: Wire, p: nat, rec: Record)
    requires ValidWire(w) && 0 < p < |Flatten(w)|
    ensures var o := Step(Iter(Flatten(w)[..p], rec, NoError));
            o.Returned? && !o.more && o.iter.err == ShortBuffer
  {
    var tail, isLength := CutIsFault(w, p);
    FaultStops(Iter(Flatten(w)[..p], rec, NoError), tail, isLength);
    MoreIsNoError(Iter(Flatten(w)[..p], rec, NoError));
  }

  lemma {:induction false} MoreIsNoError(it: Iter)
    ensures Step(it).Returned? && Step(it).more ==> Step(it).iter.err == NoError
  {
    if Step(it).Returned? && Step(it).more {
      var w := StepSound(it);
    }
  }

  /**
   * A batch cut anywhere yields exactly the records that lie wholly before the cut; the cut is reported as a short
   * buffer unless it falls on a record boundary. `k` counts those records.
   */
  lemma {:induction false} Truncation(rs: seq<Record>, c: nat, rec: Record) returns (k: nat)
    requires AllWellFormed(rs) && c <= |EncodeAll(rs)|
    ensures k <= |rs| && AllWellFormed(rs[..k]) && |EncodeAll(rs[..k])| <= c
    ensures k < |rs| ==> AllWellFormed(rs[..k + 1]) && c < |EncodeAll(rs[..k + 1])|
    ensures var (got, o) := Drain(Iter(EncodeAll(rs)[..c], rec, NoError));
            && got == rs[..k]
            && o.Returned? && !o.more
            && o.iter.err == if c == |EncodeAll(rs[..k])| then NoError else ShortBuffer
  {
    EncodeAllIsFlat(rs);
    k := TruncatedWires(WiresOf(rs), c, rec);
    EncodePrefix(rs, k);
    if k < |rs| {
      EncodePrefix(rs, k + 1);
    }
  }

  lemma {:induction false} EncodePrefix(rs: seq<Record>, k: nat)
    requires AllWellFormed(rs) && k <= |rs|
    ensures AllWellFormed(rs[..k]) && EncodeAll(rs[..k]) == FlattenAll(WiresOf(rs)[..k])
  {
    EncodeAllIsFlat(rs[..k]);
    assert WiresOf(rs[..k]) == WiresOf(rs)[..k];
  }

  lemma {:induction false} TakeCons(ws: seq<Wire>, k: nat)
    requires 0 < k <= |ws|
    ensures FlattenAll(ws[..k]) == Flatten(ws[0]) + FlattenAll(ws[1..][..k - 1])
  {
    assert ws[..k][1..] == ws[1..][..k - 1];
  }

  /** The first `k` records of `ws`, and no more, are whole in the first `c` bytes. */
  ghost predicate WholeBefore(ws: seq<Wire>, c: nat, k: nat) {
    && k <= |ws|
    && |FlattenAll(ws[..k])| <= c
    && (k < |ws| ==> c < |FlattenAll(ws[..k + 1])|)
  }

  /** Draining the first `c` bytes yields the first `k` records, and shows whether the cut is on a boundary. */
  ghost predicate CutAfter(ws: seq<Wire>, c: nat, rec: Record, k: nat)
    requires ValidWires(ws) && c <= |FlattenAll(ws)|
  {
    var it := Iter(FlattenAll(ws)[..c], rec, NoError);
    && WholeBefore(ws, c, k)
    && Drain(it).0 == Meanings(ws)[..k]
    && CutShown(Drain(it).1, c == |FlattenAll(ws[..k])|)
  }

  ghost predicate CutShown(o: Outcome, onBoundary: bool) {
    o.Returned? && !o.more && o.iter.err == if onBoundary then NoError else ShortBuffer
  }

  lemma {:induction false} CutEmpty(rec: Record)
    ensures CutAfter([], 0, rec, 0)
  {
    DrainDone(Iter([], rec, NoError));
  }

  lemma {:induction false} CutInFirst(ws: seq<Wire>, c: nat, rec: Record)
    requires ws != [] && ValidWires(ws) && c < |Flatten(ws[0])| && c <= |FlattenAll(ws)|
    ensures CutAfter(ws, c, rec, 0)
  {
    TakeConcat(Flatten(ws[0]), FlattenAll(ws[1..]), c);
    TakeCons(ws, 1);
    if c > 0 {
      CutInside(ws[0], c, rec);
    }
    DrainDone(Iter(FlattenAll(ws)[..c], rec, NoError));
  }

  lemma {:induction false} WholeBeforeCons(ws: seq<Wire>, c: nat, k: nat)
    requires ws != [] && |Flatten(ws[0])| <= c && WholeBefore(ws[1..], c - |Flatten(ws[0])|, k)
    ensures WholeBefore(ws, c, k + 1)
    ensures |FlattenAll(ws[..k + 1])| == |Flatten(ws[0])| + |FlattenAll(ws[1..][..k])|
  {
    TakeCons(ws, k + 1);
    if k + 1 < |ws| {
      TakeCons(ws, k + 2);
    }
  }

  lemma {:induction false} MeaningsPrefix(ws: seq<Wire>, k: nat)
    requires ws != [] && ValidWires(ws) && k < |ws|
    ensures ValidWires(ws[1..]) && [Meaning(ws[0])] + Meanings(ws[1..])[..k] == Meanings(ws)[..k + 1]
  {
    MeaningsCons(ws);
    TakeConcat([Meaning(ws[0])], Meanings(ws[1..]), k + 1);
  }

  lemma {:induction false} CutInTail(ws: seq<Wire>, c: nat, rec: Record, k: nat)
    requires ws != [] && ValidWires(ws) && |Flatten(ws[0])| <= c <= |FlattenAll(ws)|
    requires CutAfter(ws[1..], c - |Flatten(ws[0])|, Meaning(ws[0]), k)
    ensures CutAfter(ws, c, rec, k + 1)
  {
    var w, flat := ws[0], FlattenAll(ws[1..]);
    TakeConcat(Flatten(w), flat, c);
    DrainOne(w, flat[..c - |Flatten(w)|], rec);
    MeaningsPrefix(ws, k);
    WholeBeforeCons(ws, c, k);
  }

  lemma {:induction false} TruncatedTail(ws: seq<Wire>, c: nat, rec: Record) returns (k: nat)
    requires ws != [] && ValidWires(ws) && |Flatten(ws[0])| <= c <= |FlattenAll(ws)|
    ensures CutAfter(ws, c, rec, k)
    decreases |ws|, 0
  {
    var k' := TruncatedWires(ws[1..], c - |Flatten(ws[0])|, Meaning(ws[0]));
    CutInTail(ws, c, rec, k');
    k := k' + 1;
  }

  lemma {:induction false} TruncatedWires(ws: seq<Wire>, c: nat, rec: Record) returns (k: nat)
    requires ValidWires(ws) && c <= |FlattenAll(ws)|
    ensures CutAfter(ws, c, rec, k)
    decreases |ws|, 1
  {
    if ws == [] {
      k := 0;
      CutEmpty(rec);
    } else if c < |Flatten(ws[0])| {
      k := 0;
      CutInFirst(ws, c, rec);
    } else {
      k := TruncatedTail(ws, c, rec);
    }
  }

  // ----- progress -----

  /** A drain of any buffer makes at most one successful call a byte. */
  lemma {:induction false} DrainBound(it: Iter)
    ensures |Drain(it).0| <= |it.data|
    decreases |it.data|
  {
    StepShrinks(it);
    var o := Step(it);
    if o.Returned? && o.more {
      DrainBound(o.iter);
    }
  }
}
