/**
 * The record format as a table of tag numbers, independent of the layouts that the iterator and the grammar share:
 * which tags carry a column family id, a key and a value, and what `Next` answers for each.
 */
module WriteBatchTags {
  import opened Bits
  import opened Runtime
  import opened Varint
  import opened Records
  import opened WriteBatchGrammar

  ghost predicate CarriesCF(tag: byte) {
    tag == 0x4 || tag == 0x5 || tag == 0x6 || tag == 0x8 || tag == 0xE || tag == 0x10
  }

  ghost predicate CarriesKey(tag: byte) {
    0x0 <= tag <= 0x2 || 0x4 <= tag <= 0x8 || 0xE <= tag <= 0x11
  }

  ghost predicate CarriesValue(tag: byte) {
    0x1 <= tag <= 0x3 || 0x5 <= tag <= 0x6 || 0xA <= tag <= 0xC || 0xE <= tag <= 0x11
  }

  /** A column family id in front, if there is to be one. */
  ghost predicate IdBytes(carried: bool, id: seq<byte>) {
    if carried then Varint64(id) else id == []
  }

  /** A length and as many bytes, if there are to be any. The length has to be a non-negative `int`. */
  ghost predicate FieldBytes(carried: bool, len: seq<byte>, body: seq<byte>) {
    if carried then Varint64(len) && LebValue(len) == |body| < 0x8000_0000_0000_0000 else len == [] && body == []
  }

  /** `int` of an unsigned 64-bit number. */
  function Signed(v: nat): int {
    if v < 0x8000_0000_0000_0000 then v else v - 0x1_0000_0000_0000_0000
  }

  /** `data` starts with a record of the tag with number `tag`, of these parts; `rest` follows it. */
  ghost predicate StartsWith(data: seq<byte>, tag: byte, id: seq<byte>, keyLen: seq<byte>, key: seq<byte>,
                             valueLen: seq<byte>, value: seq<byte>, rest: seq<byte>) {
    && tag <= 0x12
    && IdBytes(CarriesCF(tag), id)
    && FieldBytes(CarriesKey(tag), keyLen, key)
    && FieldBytes(CarriesValue(tag), valueLen, value)
    && data == [tag] + (id + (keyLen + key + (valueLen + value + rest)))
  }

  /** The record that such parts stand for. */
  ghost function RecordOf(tag: byte, id: seq<byte>, key: seq<byte>, value: seq<byte>): Record {
    Record(if CarriesCF(tag) then Signed(LebValue(id)) else 0,
           if CarriesKey(tag) then Bytes(key) else Nil,
           if CarriesValue(tag) then Bytes(value) else Nil,
           tag)
  }

  /** The layouts are those of the numbered table. */
  lemma {:induction false} LayoutsByNumber(tag: byte)
    ensures LayoutOf(tag).Some? <==> tag <= 0x12
    ensures LayoutOf(tag).Some? ==> LayoutOf(tag).value == Layout(CarriesCF(tag), CarriesKey(tag), CarriesValue(tag))
  {
  }

  lemma {:induction false} AsWire(tag: byte, id: seq<byte>, keyLen: seq<byte>, key: seq<byte>,
                                  valueLen: seq<byte>, value: seq<byte>, rest: seq<byte>)
    requires StartsWith([tag] + (id + (keyLen + key + (valueLen + value + rest))), tag, id, keyLen, key, valueLen, value, rest)
    ensures var w := Wire(tag, id, keyLen, key, valueLen, value);
            && ValidWire(w) && Meaning(w) == RecordOf(tag, id, key, value)
            && Flatten(w) + rest == [tag] + (id + (keyLen + key + (valueLen + value + rest)))
  {
    LayoutsByNumber(tag);
    FlattenAssociates(Wire(tag, id, keyLen, key, valueLen, value), rest);
  }

  lemma {:induction false} FromWire(w: Wire, rest: seq<byte>)
    requires ValidWire(w)
    ensures StartsWith(Flatten(w) + rest, w.tag, w.cf, w.keyLen, w.key, w.valueLen, w.value, rest)
    ensures Meaning(w) == RecordOf(w.tag, w.cf, w.key, w.value)
  {
    LayoutsByNumber(w.tag);
    FlattenAssociates(w, rest);
  }

  /** What `Next` reads for each tag number, whatever was read before and whatever follows. */
  lemma {:induction false} NextReads(tag: byte, id: seq<byte>, keyLen: seq<byte>, key: seq<byte>,
                                     valueLen: seq<byte>, value: seq<byte>, rest: seq<byte>, before: Record)
    requires tag <= 0x12
    requires IdBytes(CarriesCF(tag), id)
    requires FieldBytes(CarriesKey(tag), keyLen, key) && FieldBytes(CarriesValue(tag), valueLen, value)
    ensures Step(Iter([tag] + (id + (keyLen + key + (valueLen + value + rest))), before, NoError))
         == Returned(true, Iter(rest, RecordOf(tag, id, key, value), NoError))
  {
    AsWire(tag, id, keyLen, key, valueLen, value, rest);
    StepOnWire(Wire(tag, id, keyLen, key, valueLen, value), rest, before);
  }

  /** Nothing else is accepted: `Next` returns true exactly on a buffer that starts so. */
  lemma {:induction false} NextReadsOnly(it: Iter, r: Record, rest: seq<byte>)
    requires it.err == NoError
    ensures Step(it) == Returned(true, Iter(rest, r, NoError))
       <==> exists id, keyLen, key, valueLen, value ::
              StartsWith(it.data, r.tag, id, keyLen, key, valueLen, value, rest) && r == RecordOf(r.tag, id, key, value)
  {
    if Step(it) == Returned(true, Iter(rest, r, NoError)) {
      var w := StepSound(it);
      FromWire(w, rest);
      assert StartsWith(it.data, r.tag, w.cf, w.keyLen, w.key, w.valueLen, w.value, rest);
    }
    forall id, keyLen, key, valueLen, value |
      StartsWith(it.data, r.tag, id, keyLen, key, valueLen, value, rest) && r == RecordOf(r.tag, id, key, value)
      ensures Step(it) == Returned(true, Iter(rest, r, NoError))
    {
      NextReads(r.tag, id, keyLen, key, valueLen, value, rest, it.record);
    }
  }

  /** Every other tag number is refused. */
  lemma {:induction false} OtherTagsUnsupported(it: Iter)
    requires it.err == NoError
    ensures it.data != [] && it.data[0] > 0x12
       <==> Step(it).iter.err == UnsupportedType
    ensures it.data != [] && it.data[0] > 0x12 ==>
              Step(it) == Returned(false, Iter(it.data[1..], Record(0, Nil, Nil, it.data[0]), UnsupportedType))
  {
    UnsupportedExactly(it);
    if it.data != [] {
      LayoutsByNumber(it.data[0]);
    }
  }

  // ----- what a call that fails leaves -----

  /** A length that was read is gone even if what it announces is not there; a varint that could not be read stays. */
  function LeftOf(tail: seq<byte>): seq<byte> {
    var n := ReadUvarint(tail).n;
    if n > 0 then tail[n..] else tail
  }

  lemma {:induction false} LeftByBytes(tail: seq<byte>, n: nat)
    requires 0 < n <= |tail|
    ensures Varint64(tail[..n]) ==> LeftOf(tail) == tail[n..]
    ensures (forall k :: 0 < k <= |tail| ==> !Varint64(tail[..k])) ==> LeftOf(tail) == tail
  {
    Varint.AcceptsExactly(tail, LebValue(tail[..n]), n);
    var r := ReadUvarint(tail);
    if r.n > 0 {
      Varint.AcceptsExactly(tail, r.value, r.n);
    }
  }

  lemma {:induction false} IdFaultLeaves(tag: byte, tail: seq<byte>, before: Record)
    requires CarriesCF(tag) && FaultOf(tail, false).Some?
    ensures Step(Iter([tag] + tail, before, NoError))
         == Returned(false, Iter(tail, Record(0, Nil, Nil, tag),
                          if FaultOf(tail, false) == Some(Malformed) then MalformedVarint else ShortBuffer))
  {
    LayoutsByNumber(tag);
    var start := Iter(tail, Record(0, Nil, Nil, tag), NoError);
    assert ([tag] + tail)[1..] == tail;
    ReadCFFault(start);
    ErrorSkipsFields(LayoutOf(tag).value, ReadCF(true, start));
  }

  lemma {:induction false} SliceFaultLeaves(it: Iter)
    requires it.err == NoError && FaultOf(it.data, true).Some? && FaultOf(it.data, true) != Some(BadLength)
    ensures ReadSlice(it) == Got(Bytes([]), Iter(LeftOf(it.data), it.record,
                          if FaultOf(it.data, true) == Some(Malformed) then MalformedVarint else ShortBuffer))
  {
    ShortExactly(it.data);
  }

  /** A fault in the key leaves an empty key, the column family id as read, and the value reset. */
  lemma {:induction false} KeyFaultLeaves(tag: byte, id: seq<byte>, tail: seq<byte>, before: Record)
    requires tag <= 0x12 && CarriesKey(tag) && IdBytes(CarriesCF(tag), id)
    requires FaultOf(tail, true).Some? && FaultOf(tail, true) != Some(BadLength)
    ensures Step(Iter([tag] + (id + tail), before, NoError))
         == Returned(false, Iter(LeftOf(tail), RecordOf(tag, id, [], []).(value := Nil),
                          if FaultOf(tail, true) == Some(Malformed) then MalformedVarint else ShortBuffer))
  {
    LayoutsByNumber(tag);
    StepPastCF(tag, id, tail, before);
    SliceFaultLeaves(Iter(tail, Head(tag, id), NoError));
  }

  /** A fault in the value leaves an empty value, and the rest of the record as read. */
  lemma {:induction false} ValueFaultLeaves(tag: byte, id: seq<byte>, keyLen: seq<byte>, key: seq<byte>, tail: seq<byte>, before: Record)
    requires tag <= 0x12 && CarriesValue(tag) && IdBytes(CarriesCF(tag), id) && FieldBytes(CarriesKey(tag), keyLen, key)
    requires FaultOf(tail, true).Some? && FaultOf(tail, true) != Some(BadLength)
    ensures Step(Iter([tag] + (id + (keyLen + key + tail)), before, NoError))
         == Returned(false, Iter(LeftOf(tail), RecordOf(tag, id, key, []),
                          if FaultOf(tail, true) == Some(Malformed) then MalformedVarint else ShortBuffer))
  {
    LayoutsByNumber(tag);
    StepPastKey(tag, id, keyLen, key, tail, before);
    SliceFaultLeaves(Iter(tail, Head(tag, id).(key := Field(CarriesKey(tag), key)), NoError));
  }
}
