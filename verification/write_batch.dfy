/** `WriteBatchIterator` (write_batch.go): a decoder that eats its buffer in place. */
module WriteBatch {
  import opened Bits
  import Varint
  import opened Records
  import opened Runtime

  class WriteBatchIterator {
    var data: seq<byte>
    var record: Record
    var err: Error

    ghost function State(): Iter
      reads this
    {
      Iter(data, record, err)
    }

    /** `WriteBatch.NewIterator`, given the serialised batch. */
    constructor NewIterator(batch: seq<byte>)
      ensures State() == Start(batch)
      ensures data == (if |batch| < 12 then [] else batch[12..]) && record == Record(0, Nil, Nil, 0x0) && err == NoError
    {
      record := Record(0, Nil, Nil, DELETION);
      err := NoError;
      data := if |batch| < 8 + 4 then [] else batch[12..];
    }

    method Next() returns (r: Call<bool>)
      modifies this
      ensures State() == Step(old(State())).iter
      ensures r == match Step(old(State())) case Returned(more, _) => Value(more) case Panicked(_) => Panic
    {
      if err != NoError || |data| == 0 {
        return Value(false);
      }
      // reset the current record
      record := record.(cf := 0);
      record := record.(key := Nil);
      record := record.(value := Nil);

      // parse the record type
      var tag := DecodeRecType();
      record := record.(tag := tag);
      ghost var start := Iter(old(data)[1..], Record(0, Nil, Nil, tag), NoError);
      assert State() == start;
      ghost var o := Step(old(State()));

      if tag in {DELETION, SINGLE_DELETION} {
        assert LayoutOf(tag) == Some(Layout(false, true, false));
        var key :- DecodeSlice();
        record := record.(key := key);
      } else if tag in {CF_DELETION, CF_SINGLE_DELETION} {
        assert LayoutOf(tag) == Some(Layout(true, true, false));
        var cf := DecodeVarint();
        record := record.(cf := ToInt64(cf));
        if err == NoError {
          var key :- DecodeSlice();
          record := record.(key := key);
        }
      } else if tag in {VALUE, MERGE, RANGE_DELETION, BLOB_INDEX} {
        assert LayoutOf(tag) == Some(Layout(false, true, true));
        var key :- DecodeSlice();
        record := record.(key := key);
        if err == NoError {
          var value :- DecodeSlice();
          record := record.(value := value);
        }
      } else if tag in {CF_VALUE, CF_RANGE_DELETION, CF_MERGE, CF_BLOB_INDEX} {
        assert LayoutOf(tag) == Some(Layout(true, true, true));
        var cf := DecodeVarint();
        record := record.(cf := ToInt64(cf));
        if err == NoError {
          var key :- DecodeSlice();
          record := record.(key := key);
        }
        if err == NoError {
          var value :- DecodeSlice();
          record := record.(value := value);
        }
      } else if tag == LOG_DATA {
        var value :- DecodeSlice();
        record := record.(value := value);
      } else if tag in {NOOP, BEGIN_PREPARE_XID, BEGIN_PERSISTED_PREPARE_XID} {
        assert LayoutOf(tag) == Some(Layout(false, false, false));
      } else if tag in {END_PREPARE_XID, COMMIT_XID, ROLLBACK_XID} {
        assert LayoutOf(tag) == Some(Layout(false, false, true));
        var value :- DecodeSlice();
        record := record.(value := value);
      } else {
        err := UnsupportedType;
      }

      return Value(err == NoError);
    }

    method Error() returns (e: Records.Error)
      ensures e == State().err
    {
      return err;
    }

    method DecodeSlice() returns (r: Call<ByteSlice>)
      modifies this
      ensures State() == ReadSlice(old(State())).iter
      ensures r == match ReadSlice(old(State())) case Got(s, _) => Value(s) case OutOfRange(_) => Panic
    {
      var v := DecodeVarint();
      var l := ToInt64(v);
      if l > |data| {
        err := ShortBuffer;
      }
      if err != NoError {
        return Value(Bytes([]));
      }
      if l < 0 {
        return Panic;
      }
      var ret := data[..l];
      data := data[l..];
      return Value(Bytes(ret));
    }

    method DecodeRecType() returns (tag: byte)
      modifies this
      ensures record == old(record)
      ensures old(data) == [] ==> tag == NOT_USED && err == ShortBuffer && data == []
      ensures old(data) != [] ==> [tag] + data == old(data) && err == old(err)
    {
      if |data| == 0 {
        err := ShortBuffer;
        return NOT_USED;
      }
      var t := data[0];
      data := data[1..];
      return t;
    }

    method DecodeVarint() returns (v: nat)
      modifies this
      ensures (v, State()) == ReadVarint(old(State()))
      ensures v < TWO_64
    {
      var n: int;
      v, n := Varint.Uvarint(data);
      assert Varint.Read(v, n) == Varint.ReadUvarint(data);
      if n > 0 {
        data := data[n..];
      } else if n == 0 {
        err := ShortBuffer;
      } else {
        err := MalformedVarint;
      }
    }
  }

  /** The loop its callers run: `Next` for as long as it returns true, keeping the records. */
  method ReadAll(batch: seq<byte>) returns (rs: seq<Record>, last: Call<bool>, err: Error)
    ensures var (all, o) := Drain(Start(batch));
            && rs == all && err == o.iter.err
            && last == match o case Returned(more, _) => Value(more) case Panicked(_) => Panic
  {
    var iter := new WriteBatchIterator.NewIterator(batch);
    rs := [];
    ghost var before := iter.State();
    last := iter.Next();
    while last == Value(true)
      invariant iter.State() == Step(before).iter
      invariant last == match Step(before) case Returned(more, _) => Value(more) case Panicked(_) => Panic
      invariant Drain(Start(batch)).0 == rs + Drain(before).0 && Drain(Start(batch)).1 == Drain(before).1
      decreases |before.data|
    {
      StepShrinks(before);
      DrainMore(before, iter.State());
      assert rs + ([iter.record] + Drain(iter.State()).0) == rs + [iter.record] + Drain(iter.State()).0;
      rs := rs + [iter.record];
      before := iter.State();
      last := iter.Next();
    }
    DrainDone(before);
    err := iter.Error();
  }
}
