/** One call of `Next` against the record grammar: what it accepts, and why it stops otherwise. */
module WriteBatchGrammar {
  import opened Bits
  import opened Runtime
  import opened Varint
  import opened Records

  // ----- a well-formed field is read whole, whatever follows -----

  lemma {:induction false} ReadVarintWire(s: seq<byte>, rest: seq<byte>, rec: Record)
    requires Varint64(s)
    ensures ReadVarint(Iter(s + rest, rec, NoError)) == (LebValue(s), Iter(rest, rec, NoError))
  {
    ReadsVarint(s, rest);
    assert (s + rest)[|s|..] == rest;
  }

  lemma {:induction false} ReadSliceWire(len: seq<byte>, body: seq<byte>, rest: seq<byte>, rec: Record)
    requires ValidField(true, len, body)
    ensures ReadSlice(Iter(len + body + rest, rec, NoError)) == Got(Bytes(body), Iter(rest, rec, NoError))
  {
    ReadVarintWire(len, body + rest, rec);
    assert len + body + rest == len + (body + rest);
    assert (body + rest)[..|body|] == body && (body + rest)[|body|..] == rest;
  }

  lemma {:induction false} ReadCFWire(present: bool, cf: seq<byte>, rest: seq<byte>, rec: Record)
    requires ValidCF(present, cf)
    ensures ReadCF(present, Iter(cf + rest, rec, NoError))
         == Iter(rest, if present then rec.(cf := ToInt64(LebValue(cf))) else rec, NoError)
  {
    if present {
      ReadVarintWire(cf, rest, rec);
    } else {
      assert cf + rest == rest;
    }
  }

  lemma {:induction false} ReadKeyWire(present: bool, len: seq<byte>, body: seq<byte>, rest: seq<byte>, rec: Record)
    requires ValidField(present, len, body)
    ensures ReadKey(present, Iter(len + body + rest, rec, NoError))
         == Returned(true, Iter(rest, if present then rec.(key := Bytes(body)) else rec, NoError))
  {
    if present {
      ReadSliceWire(len, body, rest, rec);
    } else {
      assert len + body + rest == rest;
    }
  }

  lemma {:induction false} ReadValueWire(present: bool, len: seq<byte>, body: seq<byte>, rest: seq<byte>, rec: Record)
    requires ValidField(present, len, body)
    ensures ReadValue(present, Iter(len + body + rest, rec, NoError))
         == Returned(true, Iter(rest, if present then rec.(value := Bytes(body)) else rec, NoError))
  {
    if present {
      ReadSliceWire(len, body, rest, rec);
    } else {
      assert len + body + rest == rest;
    }
  }

  /** The record under construction once its column family id is read. */
  function Head(tag: byte, cf: seq<byte>): Record
    requires LayoutOf(tag).Some? && (LayoutOf(tag).value.cf ==> LebValue(cf) < TWO_64)
  {
    Record(if LayoutOf(tag).value.cf then ToInt64(LebValue(cf)) else 0, Nil, Nil, tag)
  }

  /** The reading of a record whose column family id is in order. */
  lemma {:induction false} StepPastCF(tag: byte, cf: seq<byte>, tail: seq<byte>, rec: Record)
    requires LayoutOf(tag).Some? && ValidCF(LayoutOf(tag).value.cf, cf)
    ensures Step(Iter([tag] + (cf + tail), rec, NoError))
         == ReadFields(LayoutOf(tag).value, Iter(tail, Head(tag, cf), NoError))
  {
    assert ([tag] + (cf + tail))[1..] == cf + tail;
    ReadCFWire(LayoutOf(tag).value.cf, cf, tail, Record(0, Nil, Nil, tag));
  }

  /** The reading of a record whose fields before the value are in order. */
  lemma {:induction false} StepPastKey(tag: byte, cf: seq<byte>, keyLen: seq<byte>, key: seq<byte>, tail: seq<byte>, rec: Record)
    requires LayoutOf(tag).Some?
    requires ValidCF(LayoutOf(tag).value.cf, cf) && ValidField(LayoutOf(tag).value.key, keyLen, key)
    ensures Step(Iter([tag] + (cf + (keyLen + key + tail)), rec, NoError))
         == ReadValue(LayoutOf(tag).value.value,
                      Iter(tail, Head(tag, cf).(key := Field(LayoutOf(tag).value.key, key)), NoError))
  {
    StepPastCF(tag, cf, keyLen + key + tail, rec);
    ReadKeyWire(LayoutOf(tag).value.key, keyLen, key, tail, Head(tag, cf));
  }

  lemma {:induction false} FlattenAssociates(w: Wire, rest: seq<byte>)
    ensures Flatten(w) + rest == [w.tag] + (w.cf + (w.keyLen + w.key + (w.valueLen + w.value + rest)))
  {
  }

  /** A valid record at the front of the buffer is decoded exactly. */
  lemma {:induction false} StepOnWire(w: Wire, rest: seq<byte>, rec: Record)
    requires ValidWire(w)
    ensures Step(Iter(Flatten(w) + rest, rec, NoError)) == Returned(true, Iter(rest, Meaning(w), NoError))
  {
    var l := LayoutOf(w.tag).value;
    FlattenAssociates(w, rest);
    StepPastKey(w.tag, w.cf, w.keyLen, w.key, w.valueLen + w.value + rest, rec);
    ReadValueWire(l.value, w.valueLen, w.value, rest, Head(w.tag, w.cf).(key := Field(l.key, w.key)));
  }

  // ----- a field that was read was there -----

  lemma {:induction false} ReadVarintSound(it: Iter) returns (s: seq<byte>)
    requires it.err == NoError && ReadVarint(it).1.err == NoError
    ensures var (v, after) := ReadVarint(it);
            Varint64(s) && LebValue(s) == v && it.data == s + after.data && after == it.(data := after.data)
  {
    var r := ReadUvarint(it.data);
    Varint.AcceptsExactly(it.data, r.value, r.n);
    s := it.data[..r.n];
  }

  lemma {:induction false} ReadSliceSound(it: Iter) returns (len: seq<byte>, body: seq<byte>)
    requires it.err == NoError && ReadSlice(it).Got? && ReadSlice(it).iter.err == NoError
    ensures ValidField(true, len, body)
    ensures ReadSlice(it).slice == Bytes(body)
    ensures it.data == len + body + ReadSlice(it).iter.data
    ensures ReadSlice(it).iter == it.(data := ReadSlice(it).iter.data)
  {
    len := ReadVarintSound(it);
    var (v, after) := ReadVarint(it);
    body := after.data[..v];
    assert after.data == body + after.data[v..];
  }

  lemma {:induction false} ReadCFSound(present: bool, it: Iter) returns (cf: seq<byte>)
    requires it.err == NoError && ReadCF(present, it).err == NoError
    ensures ValidCF(present, cf) && it.data == cf + ReadCF(present, it).data
    ensures ReadCF(present, it).record == if present then it.record.(cf := ToInt64(LebValue(cf))) else it.record
  {
    if present {
      cf := ReadVarintSound(it);
    } else {
      cf := [];
    }
  }

  lemma {:induction false} ReadKeySound(present: bool, it: Iter) returns (len: seq<byte>, body: seq<byte>)
    requires it.err == NoError && ReadKey(present, it).Returned? && ReadKey(present, it).iter.err == NoError
    ensures ValidField(present, len, body) && it.data == len + body + ReadKey(present, it).iter.data
    ensures ReadKey(present, it).iter.record == if present then it.record.(key := Bytes(body)) else it.record
  {
    if present {
      len, body := ReadSliceSound(it);
    } else {
      len, body := [], [];
    }
  }

  lemma {:induction false} ReadValueSound(present: bool, it: Iter) returns (len: seq<byte>, body: seq<byte>)
    requires it.err == NoError && ReadValue(present, it).Returned? && ReadValue(present, it).more
    ensures ValidField(present, len, body) && it.data == len + body + ReadValue(present, it).iter.data
    ensures ReadValue(present, it).iter.record == if present then it.record.(value := Bytes(body)) else it.record
    ensures ReadValue(present, it).iter.err == NoError
  {
    if present {
      len, body := ReadSliceSound(it);
    } else {
      len, body := [], [];
    }
  }

  /** The fields behind the column family id, when they were read. */
  lemma {:induction false} FieldsSound(l: Layout, it: Iter)
    returns (keyLen: seq<byte>, key: seq<byte>, valueLen: seq<byte>, value: seq<byte>)
    requires it.record.key == Nil && it.record.value == Nil
    requires ReadFields(l, it).Returned? && ReadFields(l, it).more
    ensures it.err == NoError && ReadFields(l, it).iter.err == NoError
    ensures ValidField(l.key, keyLen, key) && ValidField(l.value, valueLen, value)
    ensures it.data == keyLen + key + (valueLen + value + ReadFields(l, it).iter.data)
    ensures ReadFields(l, it).iter.record == it.record.(key := Field(l.key, key), value := Field(l.value, value))
  {
    var b := ReadKey(l.key, it).iter;
    assert it.err == NoError && b.err == NoError;
    keyLen, key := ReadKeySound(l.key, it);
    valueLen, value := ReadValueSound(l.value, b);
  }

  /** The iterator once the tag is read. */
  function Opened(it: Iter): Iter
    requires it.data != []
  {
    Iter(it.data[1..], Record(0, Nil, Nil, it.data[0]), NoError)
  }

  lemma {:induction false} StepIsFields(it: Iter)
    requires Step(it).Returned? && Step(it).more
    ensures it.data != [] && LayoutOf(it.data[0]).Some? && it.data == [it.data[0]] + Opened(it).data
    ensures var l := LayoutOf(it.data[0]).value; Step(it) == ReadFields(l, ReadCF(l.cf, Opened(it)))
  {
  }

  lemma {:induction false} WireOfFields(w: Wire, rest: seq<byte>)
    requires LayoutOf(w.tag).Some?
    requires var l := LayoutOf(w.tag).value;
             ValidCF(l.cf, w.cf) && ValidField(l.key, w.keyLen, w.key) && ValidField(l.value, w.valueLen, w.value)
    ensures ValidWire(w)
    ensures var l := LayoutOf(w.tag).value;
            Meaning(w) == Head(w.tag, w.cf).(key := Field(l.key, w.key), value := Field(l.value, w.value))
    ensures [w.tag] + (w.cf + (w.keyLen + w.key + (w.valueLen + w.value + rest))) == Flatten(w) + rest
  {
    FlattenAssociates(w, rest);
  }

  /** A call that returned true has decoded a valid record that stood at the front of the buffer. */
  lemma {:induction false} StepSound(it: Iter) returns (w: Wire)
    requires Step(it).Returned? && Step(it).more
    ensures ValidWire(w) && it.data == Flatten(w) + Step(it).iter.data
    ensures Step(it).iter == Iter(Step(it).iter.data, Meaning(w), NoError)
  {
    StepIsFields(it);
    var tag := it.data[0];
    var l := LayoutOf(tag).value;
    var keyLen, key, valueLen, value := FieldsSound(l, ReadCF(l.cf, Opened(it)));
    var cf := ReadCFSound(l.cf, Opened(it));
    w := Wire(tag, cf, keyLen, key, valueLen, value);
    WireOfFields(w, Step(it).iter.data);
  }

  /** `Next` returns true exactly when a valid record starts the buffer; it then yields that record and leaves what follows it. */
  lemma {:induction false} AcceptsExactly(it: Iter, r: Record, rest: seq<byte>)
    requires it.err == NoError
    ensures Step(it) == Returned(true, Iter(rest, r, NoError))
       <==> exists w :: ValidWire(w) && Meaning(w) == r && it.data == Flatten(w) + rest
  {
    if Step(it) == Returned(true, Iter(rest, r, NoError)) {
      var w := StepSound(it);
    }
    forall w | ValidWire(w) && Meaning(w) == r && it.data == Flatten(w) + rest
      ensures Step(it) == Returned(true, Iter(rest, r, NoError))
    {
      StepOnWire(w, rest, it.record);
    }
  }

  // ----- why a call stops -----

  datatype Fault = Short | Malformed | BadLength

  /** What is wrong, if anything, with the varint due at the front of `tail` and with the bytes it announces. */
  function FaultOf(tail: seq<byte>, isLength: bool): Option<Fault> {
    var r := ReadUvarint(tail);
    if r.n < 0 then Some(Malformed)
    else if r.n == 0 then Some(Short)
    else if isLength && r.value >= TWO_63 then Some(BadLength)
    else if isLength && r.value > |tail| - r.n then Some(Short)
    else None
  }

  ghost predicate NoneEnds(tail: seq<byte>, n: nat) {
    n <= |tail| && forall i :: 0 <= i < n ==> tail[i] >= 0x80
  }

  /** Each fault by the bytes: no varint ends, or none of 64 bits does, or it announces what cannot be or is not there. */
  lemma {:induction false} FaultByBytes(tail: seq<byte>, isLength: bool)
    ensures FaultOf(tail, isLength) == Some(Malformed)
       <==> NoneEnds(tail, 9) && |tail| >= 10 && (1 < tail[9] < 0x80 || (tail[9] >= 0x80 && |tail| > 10))
    ensures FaultOf(tail, isLength) == Some(BadLength)
       <==> isLength && exists n :: 0 < n <= |tail| && Varint64(tail[..n]) && LebValue(tail[..n]) >= 0x8000_0000_0000_0000
    ensures FaultOf(tail, isLength) == Some(Short)
       <==> (|tail| <= 10 && NoneEnds(tail, |tail|))
            || (isLength && exists n :: 0 < n <= |tail| && Varint64(tail[..n]) && |tail| - n < LebValue(tail[..n]) < 0x8000_0000_0000_0000)
  {
    var r := ReadUvarint(tail);
    Varint.ShortExactly(tail);
    Varint.OverflowExactly(tail);
    if r.n > 0 {
      Varint.AcceptsExactly(tail, r.value, r.n);
    }
    forall n | 0 < n <= |tail| && Varint64(tail[..n]) ensures r == Varint.Read(LebValue(tail[..n]), n) {
      Varint.AcceptsExactly(tail, LebValue(tail[..n]), n);
    }
  }

  /** `tail` is what is left when the next varint of the record at the front of `data` is due and all before it is in order. */
  ghost predicate Due(data: seq<byte>, tail: seq<byte>, isLength: bool) {
    && data != []
    && LayoutOf(data[0]).Some?
    && var l := LayoutOf(data[0]).value;
    if !isLength then l.cf && data == [data[0]] + tail
    else
      || (l.key && exists cf :: ValidCF(l.cf, cf) && data == [data[0]] + (cf + tail))
      || (l.value && exists cf, len, body ::
            ValidCF(l.cf, cf) && ValidField(l.key, len, body) && data == [data[0]] + (cf + (len + body + tail)))
  }

  /** How the outcome of a call shows a fault. */
  function FaultShown(o: Outcome): Option<Fault> {
    match o
    case Panicked(_) => Some(BadLength)
    case Returned(more, it) =>
      match it.err
      case ShortBuffer => Some(Short)
      case MalformedVarint => Some(Malformed)
      case _ => None
  }

  lemma {:induction false} ReadSliceFault(it: Iter)
    requires it.err == NoError
    ensures var s := ReadSlice(it);
            match FaultOf(it.data, true)
            case None => s.Got? && s.iter.err == NoError
            case Some(Short) => s.Got? && s.iter.err == ShortBuffer
            case Some(Malformed) => s.Got? && s.iter.err == MalformedVarint
            case Some(BadLength) => s.OutOfRange?
  {
    Varint.ShortExactly(it.data);
  }

  lemma {:induction false} CFFaultStops(it: Iter, tail: seq<byte>)
    requires it.err == NoError && Due(it.data, tail, false) && FaultOf(tail, false).Some?
    ensures FaultShown(Step(it)) == FaultOf(tail, false)
  {
    var start := Iter(tail, Record(0, Nil, Nil, it.data[0]), NoError);
    assert it.data[1..] == tail;
    ReadCFFault(start);
    ErrorSkipsFields(LayoutOf(it.data[0]).value, ReadCF(true, start));
  }

  lemma {:induction false} KeyFaultStops(tag: byte, cf: seq<byte>, tail: seq<byte>, rec: Record)
    requires LayoutOf(tag).Some? && LayoutOf(tag).value.key && ValidCF(LayoutOf(tag).value.cf, cf) && FaultOf(tail, true).Some?
    ensures FaultShown(Step(Iter([tag] + (cf + tail), rec, NoError))) == FaultOf(tail, true)
  {
    StepPastCF(tag, cf, tail, rec);
    ReadSliceFault(Iter(tail, Head(tag, cf), NoError));
  }

  lemma {:induction false} ValueFaultStops(tag: byte, cf: seq<byte>, len: seq<byte>, body: seq<byte>, tail: seq<byte>, rec: Record)
    requires LayoutOf(tag).Some? && LayoutOf(tag).value.value && FaultOf(tail, true).Some?
    requires ValidCF(LayoutOf(tag).value.cf, cf) && ValidField(LayoutOf(tag).value.key, len, body)
    ensures FaultShown(Step(Iter([tag] + (cf + (len + body + tail)), rec, NoError))) == FaultOf(tail, true)
  {
    StepPastKey(tag, cf, len, body, tail, rec);
    ReadSliceFault(Iter(tail, Head(tag, cf).(key := Field(LayoutOf(tag).value.key, body)), NoError));
  }

  /** A fault at a due varint decides the outcome. */
  lemma {:induction false} FaultStops(it: Iter, tail: seq<byte>, isLength: bool)
    requires it.err == NoError && Due(it.data, tail, isLength) && FaultOf(tail, isLength).Some?
    ensures FaultShown(Step(it)) == FaultOf(tail, isLength)
  {
    var tag := it.data[0];
    var l := LayoutOf(tag).value;
    if !isLength {
      CFFaultStops(it, tail);
    } else if l.key && exists cf :: ValidCF(l.cf, cf) && it.data == [tag] + (cf + tail) {
      var cf :| ValidCF(l.cf, cf) && it.data == [tag] + (cf + tail);
      KeyFaultStops(tag, cf, tail, it.record);
    } else {
      var cf, len, body :|
        ValidCF(l.cf, cf) && ValidField(l.key, len, body) && it.data == [tag] + (cf + (len + body + tail));
      ValueFaultStops(tag, cf, len, body, tail, it.record);
    }
  }

  /** An error set before the key ends the call: the fields are skipped. */
  lemma {:induction false} ErrorSkipsFields(l: Layout, it: Iter)
    requires it.err != NoError
    ensures ReadFields(l, it) == Returned(false, it)
  {
  }

  /** A call that shows a fault in the fields behind the column family id met it at a due length. */
  lemma {:induction false} FieldsStopAtFault(l: Layout, it: Iter) returns (tail: seq<byte>, len: seq<byte>, body: seq<byte>, inKey: bool)
    requires it.err == NoError && FaultShown(ReadFields(l, it)).Some?
    ensures FaultOf(tail, true) == FaultShown(ReadFields(l, it))
    ensures if inKey then l.key && tail == it.data
            else l.value && ValidField(l.key, len, body) && it.data == len + body + tail
  {
    ReadSliceFault(it);
    if l.key && FaultOf(it.data, true).Some? {
      tail, len, body, inKey := it.data, [], [], true;
    } else {
      len, body := ReadKeySound(l.key, it);
      var b := ReadKey(l.key, it).iter;
      ReadSliceFault(b);
      tail, inKey := b.data, false;
    }
  }

  lemma {:induction false} ReadCFFault(it: Iter)
    requires it.err == NoError
    ensures ReadCF(true, it).err == match FaultOf(it.data, false)
                                    case Some(Short) => ShortBuffer
                                    case Some(Malformed) => MalformedVarint
                                    case _ => NoError
  {
  }

  /** A call that shows a fault met it at a due varint. */
  lemma {:induction false} StopsAtFault(it: Iter) returns (tail: seq<byte>, isLength: bool)
    requires it.err == NoError && FaultShown(Step(it)).Some?
    ensures Due(it.data, tail, isLength) && FaultOf(tail, isLength) == FaultShown(Step(it))
  {
    var tag := it.data[0];
    var l := LayoutOf(tag).value;
    var start := Opened(it);
    var a := ReadCF(l.cf, start);
    assert it.data == [tag] + start.data;
    if a.err != NoError {
      ErrorSkipsFields(l, a);
      ReadCFFault(start);
      tail, isLength := start.data, false;
    } else {
      var cf := ReadCFSound(l.cf, start);
      var len, body, inKey;
      tail, len, body, inKey := FieldsStopAtFault(l, a);
      isLength := true;
      assert inKey ==> it.data == [tag] + (cf + tail);
      assert !inKey ==> it.data == [tag] + (cf + (len + body + tail));
    }
  }

  /**
   * Each kind of stop, both ways, on every buffer: the short-buffer error, the malformed-varint error, and a length
   * of 2^63 or more (whose conversion to `int` is negative, so that slicing by it is out of range).
   */
  lemma {:induction false} StopsExactly(it: Iter, f: Fault)
    requires it.err == NoError
    ensures FaultShown(Step(it)) == Some(f)
       <==> exists tail, isLength :: Due(it.data, tail, isLength) && FaultOf(tail, isLength) == Some(f)
  {
    if FaultShown(Step(it)) == Some(f) {
      var tail, isLength := StopsAtFault(it);
    }
    forall tail, isLength | Due(it.data, tail, isLength) && FaultOf(tail, isLength) == Some(f)
      ensures FaultShown(Step(it)) == Some(f)
    {
      FaultStops(it, tail, isLength);
    }
  }

  /** The one remaining error: an unknown tag. */
  lemma {:induction false} UnsupportedExactly(it: Iter)
    requires it.err == NoError
    ensures Step(it).iter.err == UnsupportedType <==> it.data != [] && LayoutOf(it.data[0]).None?
  {
    if it.data != [] && LayoutOf(it.data[0]).Some? {
      var l := LayoutOf(it.data[0]).value;
      FieldsNeverUnsupported(l, ReadCF(l.cf, Opened(it)));
    }
  }

  lemma {:induction false} FieldsNeverUnsupported(l: Layout, it: Iter)
    requires it.err != UnsupportedType
    ensures ReadFields(l, it).iter.err != UnsupportedType
  {
    var b := ReadKey(l.key, it);
    assert b.iter.err != UnsupportedType;
  }

  lemma {:induction false} BadLengthFault(len: seq<byte>)
    requires Varint64(len) && LebValue(len) >= TWO_63
    ensures FaultOf(len, true) == Some(BadLength)
  {
    ReadsVarint(len, []);
    assert len + [] == len;
  }

  lemma {:induction false} BadKeyLength(len: seq<byte>, rec: Record)
    requires FaultOf(len, true) == Some(BadLength)
    ensures Step(Iter([DELETION] + len, rec, NoError)).Panicked?
  {
    assert [] + len == len;
    KeyFaultStops(DELETION, [], len, rec);
  }

  /** A deletion record whose length varint is 2^63 makes `Next` slice out of range. */
  lemma {:induction false} BadLengthExample(rec: Record)
    ensures Step(Iter([DELETION] + Varint.Encode(TWO_63), rec, NoError)).Panicked?
  {
    EncodeFits(TWO_63);
    EncodeIsMinimal(TWO_63);
    BadLengthFault(Varint.Encode(TWO_63));
    BadKeyLength(Varint.Encode(TWO_63), rec);
  }

  // ----- what a call leaves -----

  ghost predicate Suffix(t: seq<byte>, s: seq<byte>) {
    |t| <= |s| && t == s[|s| - |t|..]
  }

  lemma {:induction false} SuffixTrans(a: seq<byte>, b: seq<byte>, c: seq<byte>)
    requires Suffix(a, b) && Suffix(b, c)
    ensures Suffix(a, c)
  {
  }

  lemma {:induction false} DropSuffix(s: seq<byte>, n: nat)
    requires n <= |s|
    ensures Suffix(s[n..], s)
  {
  }

  lemma {:induction false} ReadVarintSuffix(it: Iter)
    ensures Suffix(ReadVarint(it).1.data, it.data)
  {
    var n := ReadUvarint(it.data).n;
    DropSuffix(it.data, if n > 0 then n else 0);
  }

  lemma {:induction false} ReadSliceSuffix(it: Iter)
    ensures Suffix(ReadSlice(it).iter.data, it.data)
  {
    ReadVarintSuffix(it);
    var (v, after) := ReadVarint(it);
    var n := ToInt64(v);
    if 0 <= n <= |after.data| {
      DropSuffix(after.data, n);
      SuffixTrans(after.data[n..], after.data, it.data);
    }
  }

  lemma {:induction false} ReadFieldsSuffix(l: Layout, it: Iter)
    ensures Suffix(ReadFields(l, it).iter.data, it.data)
  {
    var b := ReadKey(l.key, it).iter;
    ReadSliceSuffix(it);
    ReadSliceSuffix(b);
    SuffixTrans(ReadValue(l.value, b).iter.data, b.data, it.data);
  }

  /** Whatever the outcome, the buffer left is a suffix of the buffer given. */
  lemma {:induction false} StepLeavesSuffix(it: Iter)
    ensures Suffix(Step(it).iter.data, it.data)
  {
    if it.err == NoError && it.data != [] {
      DropSuffix(it.data, 1);
      if LayoutOf(it.data[0]).Some? {
        var l := LayoutOf(it.data[0]).value;
        var start := Opened(it);
        var a := ReadCF(l.cf, start);
        ReadVarintSuffix(start);
        ReadFieldsSuffix(l, a);
        SuffixTrans(a.data, start.data, it.data);
        SuffixTrans(Step(it).iter.data, a.data, it.data);
      }
    }
  }

  /** Once `Next` has returned false, every further call returns false and changes nothing. */
  lemma {:induction false} FalseIsSticky(it: Iter)
    requires Step(it).Returned? && !Step(it).more
    ensures Step(Step(it).iter) == Step(it)
  {
    if it.err == NoError && it.data != [] && LayoutOf(it.data[0]).Some? {
      var l := LayoutOf(it.data[0]).value;
      var start := Opened(it);
      var b := ReadKey(l.key, ReadCF(l.cf, start));
      assert Step(it) == ReadValue(l.value, b.iter);
      assert Step(it).iter.err != NoError;
    }
  }
}
