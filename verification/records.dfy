/** The write-batch record format and the value-level state of `WriteBatchIterator`. */
module Records {
  import opened Bits
  import opened Runtime
  import opened Varint

  datatype Record = Record(cf: int, key: ByteSlice, value: ByteSlice, tag: byte)

  datatype Error = NoError | ShortBuffer | MalformedVarint | UnsupportedType

  const DELETION: byte := 0x0
  const VALUE: byte := 0x1
  const MERGE: byte := 0x2
  const LOG_DATA: byte := 0x3
  const CF_DELETION: byte := 0x4
  const CF_VALUE: byte := 0x5
  const CF_MERGE: byte := 0x6
  const SINGLE_DELETION: byte := 0x7
  const CF_SINGLE_DELETION: byte := 0x8
  const BEGIN_PREPARE_XID: byte := 0x9
  const END_PREPARE_XID: byte := 0xA
  const COMMIT_XID: byte := 0xB
  const ROLLBACK_XID: byte := 0xC
  const NOOP: byte := 0xD
  const CF_RANGE_DELETION: byte := 0xE
  const RANGE_DELETION: byte := 0xF
  const CF_BLOB_INDEX: byte := 0x10
  const BLOB_INDEX: byte := 0x11
  const BEGIN_PERSISTED_PREPARE_XID: byte := 0x12
  const NOT_USED: byte := 0x7F

  /** Bytes of the batch header: an 8-byte sequence number and a 4-byte count. */
  const HEADER_SIZE := 12

  /** Which fields follow the tag of a record. */
  datatype Layout = Layout(cf: bool, key: bool, value: bool)

  function LayoutOf(tag: byte): Option<Layout> {
    if tag in {DELETION, SINGLE_DELETION} then Some(Layout(false, true, false))
    else if tag in {CF_DELETION, CF_SINGLE_DELETION} then Some(Layout(true, true, false))
    else if tag in {VALUE, MERGE, RANGE_DELETION, BLOB_INDEX} then Some(Layout(false, true, true))
    else if tag in {CF_VALUE, CF_RANGE_DELETION, CF_MERGE, CF_BLOB_INDEX} then Some(Layout(true, true, true))
    else if tag in {LOG_DATA, END_PREPARE_XID, COMMIT_XID, ROLLBACK_XID} then Some(Layout(false, false, true))
    else if tag in {NOOP, BEGIN_PREPARE_XID, BEGIN_PERSISTED_PREPARE_XID} then Some(Layout(false, false, false))
    else None
  }

  // ----- the grammar -----

  /** The pieces of one record as they lie in the buffer; an absent field has no bytes. */
  datatype Wire = Wire(tag: byte, cf: seq<byte>, keyLen: seq<byte>, key: seq<byte>, valueLen: seq<byte>, value: seq<byte>)

  function Flatten(w: Wire): seq<byte> {
    [w.tag] + (w.cf + ((w.keyLen + w.key) + (w.valueLen + w.value)))
  }

  ghost predicate ValidCF(present: bool, cf: seq<byte>) {
    if present then Varint64(cf) else cf == []
  }

  /** A length-prefixed field. The length is converted to a signed `int`, hence the bound. */
  ghost predicate ValidField(present: bool, len: seq<byte>, body: seq<byte>) {
    if present then Varint64(len) && LebValue(len) == |body| < TWO_63 else len == [] && body == []
  }

  ghost predicate ValidWire(w: Wire) {
    && LayoutOf(w.tag).Some?
    && var l := LayoutOf(w.tag).value;
    && ValidCF(l.cf, w.cf)
    && ValidField(l.key, w.keyLen, w.key)
    && ValidField(l.value, w.valueLen, w.value)
  }

  function Field(present: bool, body: seq<byte>): ByteSlice {
    if present then Bytes(body) else Nil
  }

  /** The record a piece of wire stands for. Fields that its tag lacks keep their reset values. */
  ghost function Meaning(w: Wire): Record
    requires ValidWire(w)
  {
    var l := LayoutOf(w.tag).value;
    Record(if l.cf then ToInt64(LebValue(w.cf)) else 0, Field(l.key, w.key), Field(l.value, w.value), w.tag)
  }

  ghost predicate ValidWires(ws: seq<Wire>) {
    forall i :: 0 <= i < |ws| ==> ValidWire(ws[i])
  }

  function FlattenAll(ws: seq<Wire>): seq<byte> {
    if ws == [] then [] else Flatten(ws[0]) + FlattenAll(ws[1..])
  }

  ghost function Meanings(ws: seq<Wire>): (rs: seq<Record>)
    requires ValidWires(ws)
    ensures |rs| == |ws| && forall i :: 0 <= i < |ws| ==> rs[i] == Meaning(ws[i])
  {
    seq(|ws|, i requires 0 <= i < |ws| => Meaning(ws[i]))
  }

  // ----- the iterator on values -----

  datatype Iter = Iter(data: seq<byte>, record: Record, err: Error)

  /** `Next` returns a boolean, or indexes out of range. */
  datatype Outcome = Returned(more: bool, iter: Iter) | Panicked(iter: Iter)

  /** A slice was decoded (or the error set), or slicing was out of range. */
  datatype SliceRead = Got(slice: ByteSlice, iter: Iter) | OutOfRange(iter: Iter)

  function ReadVarint(it: Iter): (nat, Iter) {
    var r := ReadUvarint(it.data);
    (r.value,
     if r.n > 0 then it.(data := it.data[r.n..])
     else it.(err := if r.n == 0 then ShortBuffer else MalformedVarint))
  }

  function ReadSlice(it: Iter): SliceRead {
    var (v, after) := ReadVarint(it);
    var n := ToInt64(v);
    if n > |after.data| then Got(Bytes([]), after.(err := ShortBuffer))
    else if after.err != NoError then Got(Bytes([]), after)
    else if n < 0 then OutOfRange(after)
    else Got(Bytes(after.data[..n]), after.(data := after.data[n..]))
  }

  function ReadCF(present: bool, it: Iter): Iter {
    if !present then it
    else
      var (v, after) := ReadVarint(it);
      after.(record := after.record.(cf := ToInt64(v)))
  }

  function ReadKey(present: bool, it: Iter): Outcome {
    if !present || it.err != NoError then Returned(true, it)
    else match ReadSlice(it)
      case OutOfRange(after) => Panicked(after)
      case Got(s, after) => Returned(true, after.(record := after.record.(key := s)))
  }

  function ReadValue(present: bool, it: Iter): Outcome {
    if !present || it.err != NoError then Returned(it.err == NoError, it)
    else match ReadSlice(it)
      case OutOfRange(after) => Panicked(after)
      case Got(s, after) => Returned(after.err == NoError, after.(record := after.record.(value := s)))
  }

  /** The fields behind the column family id. */
  function ReadFields(l: Layout, it: Iter): Outcome {
    var keyed := ReadKey(l.key, it);
    if keyed.Panicked? then keyed else ReadValue(l.value, keyed.iter)
  }

  /** One call of `Next`, driven by the layout table. */
  function Step(it: Iter): Outcome {
    if it.err != NoError || it.data == [] then Returned(false, it)
    else
      var start := Iter(it.data[1..], Record(0, Nil, Nil, it.data[0]), NoError);
      match LayoutOf(it.data[0])
      case None => Returned(false, start.(err := UnsupportedType))
      case Some(l) => ReadFields(l, ReadCF(l.cf, start))
  }

  /** What `NewIterator` starts from: the batch without its header. */
  function Start(batch: seq<byte>): Iter {
    Iter(if |batch| < HEADER_SIZE then [] else batch[HEADER_SIZE..], Record(0, Nil, Nil, DELETION), NoError)
  }

  lemma {:induction false} ReadSliceShrinks(it: Iter)
    ensures |ReadSlice(it).iter.data| <= |it.data|
  {
  }

  /** A call never adds bytes, and a call that returns true removes at least the tag. */
  lemma {:induction false} StepShrinks(it: Iter)
    ensures |Step(it).iter.data| <= |it.data|
    ensures it.err == NoError && it.data != [] ==> |Step(it).iter.data| < |it.data|
  {
    if it.err == NoError && it.data != [] && LayoutOf(it.data[0]).Some? {
      var l := LayoutOf(it.data[0]).value;
      var start := Iter(it.data[1..], Record(0, Nil, Nil, it.data[0]), NoError);
      var a := ReadCF(l.cf, start);
      assert |a.data| < |it.data|;
      ReadSliceShrinks(a);
      var b := ReadKey(l.key, a);
      assert |b.iter.data| < |it.data|;
      ReadSliceShrinks(b.iter);
      assert |ReadValue(l.value, b.iter).iter.data| < |it.data|;
    }
  }

  /** Calling `Next` for as long as it returns true, keeping each record; the outcome is that of the last call. */
  function Drain(it: Iter): (seq<Record>, Outcome)
    decreases |it.data|
  {
    var o := Step(it);
    StepShrinks(it);
    if o.Returned? && o.more then
      var (rs, last) := Drain(o.iter);
      ([o.iter.record] + rs, last)
    else ([], o)
  }

  lemma {:induction false} DrainMore(it: Iter, next: Iter)
    requires Step(it) == Returned(true, next)
    ensures Drain(it) == ([next.record] + Drain(next).0, Drain(next).1)
  {
  }

  lemma {:induction false} DrainDone(it: Iter)
    requires Step(it).Returned? ==> !Step(it).more
    ensures Drain(it) == ([], Step(it))
  {
  }
}
